/** The options page: cleaning the saved server address and token, choosing the old sync
    folders to delete, and replaying the tag tree into browser bookmark folders. */
module Options {
  import opened Wrappers
  import opened Strings
  import opened Seqs
  import opened Bookmarks
  import opened Grouping
  import opened TagTree

  // ---------------------------------------------------------------- settings

  /** `value.trim().replace(/\/$/, '')`: trim, then drop one trailing slash. */
  function CleanUrl(value: string): (r: string)
    ensures var t := Trim(value);
            if EndsWithChar(t, '/') then r + "/" == t else r == t
  {
    var t := Trim(value);
    if EndsWithChar(t, '/') then
      DropLastSlash(t);
      t[..|t| - 1]
    else t
  }

  /** A string ending in a slash is its prefix followed by that slash. */
  lemma DropLastSlash(t: string)
    requires EndsWithChar(t, '/')
    ensures t[..|t| - 1] + "/" == t
  {
  }

  /** `value.trim()`. */
  function CleanToken(value: string): (r: string)
    ensures IsTrimmed(r) && StripsTo(value, LeadingBlanks(value), r)
  {
    TrimStrips(value);
    Trim(value)
  }

  /** A trimmed address typed with a trailing slash is saved without it; without one it
      is saved as typed. */
  lemma CleanUrlDropsOneSlash(u: string)
    requires IsTrimmed(u)
    ensures CleanUrl(u + "/") == u
    ensures !EndsWithChar(u, '/') ==> CleanUrl(u) == u
  {
    SlashKeepsTrimmed(u);
    CleanUrlOfTrimmed(u + "/");
    assert (u + "/")[..|u|] == u;
    CleanUrlOfTrimmed(u);
  }

  /** On an address without surrounding blanks only the slash rule acts. */
  lemma CleanUrlOfTrimmed(s: string)
    requires IsTrimmed(s)
    ensures CleanUrl(s) == if EndsWithChar(s, '/') then s[..|s| - 1] else s
  {
    TrimTrimmed(s);
  }

  lemma SlashKeepsTrimmed(u: string)
    requires IsTrimmed(u)
    ensures IsTrimmed(u + "/")
  {
    var s := u + "/";
    assert s[|s| - 1] == '/';
    if u != [] { assert s[0] == u[0]; }
  }

  /** Only one slash goes: the cleaning is not idempotent. */
  lemma CleanUrlNotIdempotent()
    ensures CleanUrl("h//") == "h/"
    ensures CleanUrl(CleanUrl("h//")) == "h"
  {
    var s := "h//";
    assert IsTrimmed(s);
    TrimTrimmed(s);
    assert IsTrimmed("h/");
    TrimTrimmed("h/");
    assert "h//"[..2] == "h/";
    assert "h/"[..1] == "h";
  }

  // ---------------------------------------------------------------- old sync folders

  /** One hit of the browser's bookmark search by title. */
  datatype SearchHit = SearchHit(id: string, url: Option<string>, parentId: string)

  /** A hit is an old sync folder when it has no URL (a folder) and sits on the
      bookmarks bar (`'1'`) or in Other Bookmarks (`'2'`). */
  predicate IsStaleSyncFolder(hit: SearchHit)
  {
    (hit.url.None? || hit.url == Some("")) && (hit.parentId == "1" || hit.parentId == "2")
  }

  /** The ids the cleanup removes, in search order: exactly those of stale sync folders. */
  function StaleFolderIds(hits: seq<SearchHit>): (ids: seq<string>)
    ensures |ids| <= |hits|
    ensures forall id :: id in ids <==> exists h :: h in hits && IsStaleSyncFolder(h) && h.id == id
  {
    var stale := Filter(hits, IsStaleSyncFolder);
    var ids := Map(stale, (h: SearchHit) => h.id);
    assert forall id :: id in ids ==> exists h :: h in stale && h.id == id by {
      forall id | id in ids ensures exists h :: h in stale && h.id == id {
        var i :| 0 <= i < |ids| && ids[i] == id;
        assert stale[i] in stale;
      }
    }
    assert forall h :: h in stale ==> h.id in ids by {
      forall h | h in stale ensures h.id in ids {
        var i :| 0 <= i < |stale| && stale[i] == h;
        assert ids[i] == h.id;
      }
    }
    ids
  }

  /** A bookmark (with a URL) or a folder outside the two roots is never removed. */
  lemma CleanupSparesOthers(hits: seq<SearchHit>, h: SearchHit)
    requires h in hits && !IsStaleSyncFolder(h)
    requires forall g :: g in hits && g.id == h.id ==> g == h
    ensures h.id !in StaleFolderIds(hits)
  {
  }

  // ---------------------------------------------------------------- replay

  /** Sibling order: by lowered name, ties broken by the names themselves. */
  predicate SiblingLess(a: string, b: string)
  {
    LexLess(ToLower(a), ToLower(b)) || (ToLower(a) == ToLower(b) && LexLess(a, b))
  }

  lemma SiblingLessIrreflexive(a: string)
    ensures !SiblingLess(a, a)
  {
    LexLessIrreflexive(ToLower(a));
    LexLessIrreflexive(a);
  }

  lemma SiblingLessTransitive(a: string, b: string, c: string)
    requires SiblingLess(a, b) && SiblingLess(b, c)
    ensures SiblingLess(a, c)
  {
    var la, lb, lc := ToLower(a), ToLower(b), ToLower(c);
    if LexLess(la, lb) && LexLess(lb, lc) {
      LexLessTransitive(la, lb, lc);
    } else if LexLess(la, lb) {
    } else if LexLess(lb, lc) {
    } else {
      LexLessTransitive(a, b, c);
    }
  }

  lemma SiblingLessTotal(a: string, b: string)
    requires a != b
    ensures SiblingLess(a, b) || SiblingLess(b, a)
  {
    if ToLower(a) != ToLower(b) {
      LexLessTotal(ToLower(a), ToLower(b));
    } else {
      LexLessTotal(a, b);
    }
  }

  /** `k` is the first of `keys` in sibling order. */
  predicate IsFirst(k: string, keys: set<string>)
  {
    k in keys && forall j :: j in keys && j != k ==> SiblingLess(k, j)
  }

  lemma {:induction false} FirstExists(keys: set<string>)
    requires keys != {}
    ensures exists k :: IsFirst(k, keys)
    decreases |keys|
  {
    var x :| x in keys;
    if keys != {x} {
      var rest := keys - {x};
      FirstExists(rest);
      var k :| IsFirst(k, rest);
      SiblingLessTotal(k, x);
      if SiblingLess(k, x) {
        assert IsFirst(k, keys);
      } else {
        forall j | j in keys && j != x ensures SiblingLess(x, j) {
          if j != k { SiblingLessTransitive(x, k, j); }
        }
        assert IsFirst(x, keys);
      }
    } else {
      assert IsFirst(x, keys);
    }
  }

  lemma FirstUnique(k: string, k': string, keys: set<string>)
    requires IsFirst(k, keys) && IsFirst(k', keys)
    ensures k == k'
  {
    if k != k' {
      SiblingLessTransitive(k, k', k);
      SiblingLessIrreflexive(k);
    }
  }

  /** `Object.keys(node).sort(...)`: the keys, each once, in sibling order. */
  function SortedKeys(keys: set<string>): (r: seq<string>)
    ensures |r| == |keys|
    ensures forall k :: k in r <==> k in keys
    ensures forall i, j :: 0 <= i < j < |r| ==> SiblingLess(r[i], r[j])
    decreases |keys|
  {
    if keys == {} then []
    else
      FirstExists(keys);
      assert forall a, b :: IsFirst(a, keys) && IsFirst(b, keys) ==> a == b by {
        forall a, b | IsFirst(a, keys) && IsFirst(b, keys) ensures a == b {
          FirstUnique(a, b, keys);
        }
      }
      var k :| IsFirst(k, keys);
      var rest := SortedKeys(keys - {k});
      assert forall i :: 0 <= i < |rest| ==> SiblingLess(k, rest[i]) by {
        forall i | 0 <= i < |rest| ensures SiblingLess(k, rest[i]) {
          assert rest[i] in keys - {k};
        }
      }
      [k] + rest
  }

  /** One browser bookmark call. A folder is named by its path of titles below the new
      root folder, which stands in for the id the browser would return. */
  datatype Create =
    | CreateFolder(parent: seq<string>, title: string)
    | CreateBookmark(parent: seq<string>, title: string, url: string)

  /** The entry title: the title, else the website title, else the URL. */
  function DisplayTitle(b: Bookmark): (r: string)
    ensures r == b.title || r == b.websiteTitle || r == b.url
    ensures b.title != "" ==> r == b.title
    ensures r == "" ==> b.title == "" && b.websiteTitle == "" && b.url == ""
    ensures b.title == "" && b.websiteTitle != "" ==> r == b.websiteTitle
    ensures b.title == "" && b.websiteTitle == "" ==> r == b.url
  {
    if b.title != "" then b.title else if b.websiteTitle != "" then b.websiteTitle else b.url
  }

  /** The entries of one tag folder, in bucket order. */
  function Entries(folder: seq<string>, bucket: seq<Bookmark>): (r: seq<Create>)
    ensures |r| == |bucket|
    ensures forall i :: 0 <= i < |r| ==> r[i] == CreateBookmark(folder, DisplayTitle(bucket[i]), bucket[i].url)
  {
    Map(bucket, (b: Bookmark) => CreateBookmark(folder, DisplayTitle(b), b.url))
  }

  /** `createBookmarksRecursive` for one child `key` of a folder at `path`: the folder, its
      entries when the node is a named tag, then its own children. */
  function ReplayNode(path: seq<string>, key: string, node: TagNode, byTag: ByTag): seq<Create>
    decreases node, |node.children.Keys| + 1
  {
    var here := path + [key];
    var entries := if node.isTag && node.fullName != "" then Entries(here, Get(byTag, node.fullName)) else [];
    var below := if |node.children.Keys| > 0 then ReplayLevel(here, node, SortedKeys(node.children.Keys), byTag) else [];
    [CreateFolder(path, key)] + entries + below
  }

  /** The loop over the sorted children `keys` of `parent`, whose folder is at `path`. */
  function ReplayLevel(path: seq<string>, parent: TagNode, keys: seq<string>, byTag: ByTag): seq<Create>
    requires forall k :: k in keys ==> k in parent.children
    decreases parent, |keys|
  {
    if keys == [] then []
    else
      assert keys[0] in keys;
      ReplayNode(path, keys[0], parent.children[keys[0]], byTag)
      + ReplayLevel(path, parent, keys[1..], byTag)
  }

  /** The whole replay of a tree below the new root folder. */
  function Replay(tree: Tree, byTag: ByTag): seq<Create>
  {
    var root := TagNode(false, "", tree);
    ReplayLevel([], root, SortedKeys(tree.Keys), byTag)
  }

  /** The node reached from `n` along the relative path `rel`, if any. */
  function NodeAt(n: TagNode, rel: seq<string>): Option<TagNode>
    decreases |rel|
  {
    if rel == [] then Some(n)
    else if rel[0] in n.children then NodeAt(n.children[rel[0]], rel[1..])
    else None
  }

  /** The folder a call acts on, as a path of titles: the new folder itself, or the folder
      a bookmark entry goes into. */
  function Target(c: Create): seq<string>
  {
    if c.CreateFolder? then c.parent + [c.title] else c.parent
  }

  /** `c` is an entry for one of the bookmarks filed under the full name of tag node `n`. */
  predicate EntryFor(n: TagNode, c: Create, byTag: ByTag)
  {
    c.CreateBookmark? && n.isTag && n.fullName != ""
    && exists b :: b in Get(byTag, n.fullName) && c.title == DisplayTitle(b) && c.url == b.url
  }

  /** `c` is a call the replay of node `n` makes for the folder at relative path `rel`:
      the folder of any node, or an entry of a named tag node. */
  predicate Made(n: TagNode, rel: seq<string>, c: Create, byTag: ByTag)
  {
    NodeAt(n, rel).Some? && (c.CreateFolder? || EntryFor(NodeAt(n, rel).value, c, byTag))
  }

  lemma EntriesMembers(folder: seq<string>, bucket: seq<Bookmark>, c: Create)
    ensures c in Entries(folder, bucket) <==>
              c.CreateBookmark? && c.parent == folder
              && exists b :: b in bucket && c.title == DisplayTitle(b) && c.url == b.url
  {
    var r := Entries(folder, bucket);
    if c in r {
      var i :| 0 <= i < |r| && r[i] == c;
      assert bucket[i] in bucket;
    }
    if c.CreateBookmark? && c.parent == folder
       && exists b :: b in bucket && c.title == DisplayTitle(b) && c.url == b.url {
      var b :| b in bucket && c.title == DisplayTitle(b) && c.url == b.url;
      var i :| 0 <= i < |bucket| && bucket[i] == b;
      assert r[i] == c;
    }
  }

  /** The calls of the replay of child `key` (node `node`) of the folder at `path` are
      exactly the calls made for the folders of its subtree. */
  lemma {:induction false} ReplayNodeMembers(path: seq<string>, key: string, node: TagNode, byTag: ByTag, c: Create)
    ensures c in ReplayNode(path, key, node, byTag) <==>
              |Target(c)| > |path| && Target(c)[..|path| + 1] == path + [key]
              && Made(node, Target(c)[|path| + 1..], c, byTag)
    decreases node, |node.children.Keys| + 1
  {
    var here := path + [key];
    var t := Target(c);
    var entries := if node.isTag && node.fullName != "" then Entries(here, Get(byTag, node.fullName)) else [];
    var keys := SortedKeys(node.children.Keys);
    var below := if |node.children.Keys| > 0 then ReplayLevel(here, node, keys, byTag) else [];
    assert ReplayNode(path, key, node, byTag) == [CreateFolder(path, key)] + entries + below;
    // the call for the node's own folder
    assert c == CreateFolder(path, key) <==> c.CreateFolder? && t == here by {
      if c.CreateFolder? && t == here { FolderOfTarget(c, path, key); }
    }
    // its entries
    assert c in entries <==> t == here && EntryFor(node, c, byTag) by {
      if node.isTag && node.fullName != "" {
        EntriesMembers(here, Get(byTag, node.fullName), c);
      }
    }
    // the folders below
    assert c in below <==> |t| > |here| && t[..|here|] == here && Made(node, t[|here|..], c, byTag) by {
      if |node.children.Keys| > 0 {
        ReplayLevelMembers(here, node, keys, byTag, c);
        if |t| > |here| {
          MadeStep(node, t[|here|..], c, byTag);
        }
      } else if |t| > |here| {
        MadeStep(node, t[|here|..], c, byTag);
      }
    }
    SplitTarget(t, path, key, node, c, byTag);
  }

  /** Below a node, a call is made for a child's subtree. */
  lemma MadeStep(n: TagNode, rel: seq<string>, c: Create, byTag: ByTag)
    requires rel != []
    ensures Made(n, rel, c, byTag) <==> rel[0] in n.children && Made(n.children[rel[0]], rel[1..], c, byTag)
  {
  }

  /** A call is made for the subtree at `path + [key]` when it is made for that folder
      itself or for a folder further down. */
  lemma SplitTarget(t: seq<string>, path: seq<string>, key: string, node: TagNode, c: Create, byTag: ByTag)
    requires t == Target(c)
    ensures (|t| > |path| && t[..|path| + 1] == path + [key] && Made(node, t[|path| + 1..], c, byTag))
            <==> (c.CreateFolder? && t == path + [key])
                 || (t == path + [key] && EntryFor(node, c, byTag))
                 || (|t| > |path + [key]| && t[..|path + [key]|] == path + [key]
                     && Made(node, t[|path + [key]|..], c, byTag))
  {
    var here := path + [key];
    if |t| > |path| && t[..|path| + 1] == here {
      if |t| == |here| {
        assert t == here;
      }
    }
  }

  /** The calls of the loop over `keys` are exactly the calls made for the subtrees of
      those children of `parent`. */
  lemma {:induction false} ReplayLevelMembers(path: seq<string>, parent: TagNode, keys: seq<string>, byTag: ByTag, c: Create)
    requires forall k :: k in keys ==> k in parent.children
    ensures c in ReplayLevel(path, parent, keys, byTag) <==>
              |Target(c)| > |path| && Target(c)[..|path|] == path && Target(c)[|path|] in keys
              && Made(parent.children[Target(c)[|path|]], Target(c)[|path| + 1..], c, byTag)
    decreases parent, |keys|
  {
    if keys != [] {
      var k := keys[0];
      assert k in keys;
      var t := Target(c);
      ReplayNodeMembers(path, k, parent.children[k], byTag, c);
      ReplayLevelMembers(path, parent, keys[1..], byTag, c);
      if |t| > |path| {
        PathStep(t, path, k);
        assert t[|path|] in keys <==> t[|path|] == k || t[|path|] in keys[1..];
      }
    }
  }

  /** A path extends `path + [k]` when it extends `path` and has `k` next. */
  lemma PathStep(t: seq<string>, path: seq<string>, k: string)
    requires |t| > |path|
    ensures t[..|path| + 1] == path + [k] <==> t[..|path|] == path && t[|path|] == k
  {
    assert t[..|path| + 1] == t[..|path|] + [t[|path|]];
  }

  /** A folder call is determined by the path of the folder it creates. */
  lemma FolderOfTarget(c: Create, path: seq<string>, key: string)
    requires c.CreateFolder? && Target(c) == path + [key]
    ensures c == CreateFolder(path, key)
  {
    var t := Target(c);
    assert c.parent == t[..|t| - 1] && c.title == t[|t| - 1];
  }

  /** The replay makes exactly the calls for the folders of the tree: one folder per node,
      and entries only for named tag nodes, from the bucket of their full name. */
  lemma ReplayMembers(tree: Tree, byTag: ByTag, c: Create)
    ensures c in Replay(tree, byTag) <==>
              |Target(c)| >= 1 && Made(TagNode(false, "", tree), Target(c), c, byTag)
  {
    var root := TagNode(false, "", tree);
    ReplayLevelMembers([], root, SortedKeys(tree.Keys), byTag, c);
    var t := Target(c);
    if |t| >= 1 {
      assert t[..0] == [] && t[1..] == t[0 + 1..];
      MadeFromRoot(tree, t, c, byTag);
    }
  }

  /** Below the root, a call is made for a path when it is made for the rest of the path
      under the subtree of its first segment. */
  lemma MadeFromRoot(tree: Tree, t: seq<string>, c: Create, byTag: ByTag)
    requires |t| >= 1
    ensures Made(TagNode(false, "", tree), t, c, byTag) <==> t[0] in tree && Made(tree[t[0]], t[1..], c, byTag)
  {
  }

  /** A path from the root of a tree reaches the same node by either lookup. */
  lemma {:induction false} LookupIsNodeAt(tree: Tree, q: seq<string>)
    requires |q| >= 1
    ensures Lookup(tree, q) == NodeAt(TagNode(false, "", tree), q)
    decreases |q|
  {
    if q[0] in tree && |q| > 1 {
      LookupIsNodeAt(tree[q[0]].children, q[1..]);
      var child := tree[q[0]];
      assert NodeAt(TagNode(false, "", child.children), q[1..]) == NodeAt(child, q[1..]) by {
        NodeAtSameChildren(TagNode(false, "", child.children), child, q[1..]);
      }
    }
  }

  /** Lookups below a node depend only on its children. */
  lemma NodeAtSameChildren(m: TagNode, n: TagNode, q: seq<string>)
    requires m.children == n.children && q != []
    ensures NodeAt(m, q) == NodeAt(n, q)
  {
  }

  /** Keys in strict sibling order are duplicate-free. */
  lemma SortedKeysDistinct(keys: set<string>)
    ensures Distinct(SortedKeys(keys))
  {
    var r := SortedKeys(keys);
    forall i, j | 0 <= i < j < |r| ensures r[i] != r[j] {
      if r[i] == r[j] { SiblingLessIrreflexive(r[i]); }
    }
  }

  /** The replay of a child is its folder, then its entries, then the folders below. */
  lemma ReplayNodeParts(path: seq<string>, key: string, node: TagNode, byTag: ByTag)
    ensures multiset(ReplayNode(path, key, node, byTag))
            == multiset([CreateFolder(path, key)])
               + multiset(if node.isTag && node.fullName != "" then Entries(path + [key], Get(byTag, node.fullName)) else [])
               + multiset(if |node.children.Keys| > 0 then ReplayLevel(path + [key], node, SortedKeys(node.children.Keys), byTag) else [])
  {
  }

  /** A tag folder's entries are bookmark calls, never folder calls. */
  lemma EntriesAreBookmarks(folder: seq<string>, bucket: seq<Bookmark>, c: Create)
    requires c.CreateFolder?
    ensures c !in Entries(folder, bucket)
  {
    var r := Entries(folder, bucket);
    forall i | 0 <= i < |r| ensures r[i] != c {
    }
  }

  /** Every call of the replay of child `key` acts at or below the folder `path + [key]`. */
  lemma ReplayNodeUnder(path: seq<string>, key: string, node: TagNode, byTag: ByTag, c: Create)
    requires c in ReplayNode(path, key, node, byTag)
    ensures |Target(c)| > |path| && Target(c)[|path|] == key
  {
    ReplayNodeMembers(path, key, node, byTag, c);
    PathStep(Target(c), path, key);
  }

  /** Every call of the loop over `keys` acts below the folder of one of those keys. */
  lemma ReplayLevelUnder(path: seq<string>, parent: TagNode, keys: seq<string>, byTag: ByTag, c: Create)
    requires forall k :: k in keys ==> k in parent.children
    requires c in ReplayLevel(path, parent, keys, byTag)
    ensures |Target(c)| > |path| && Target(c)[|path|] in keys
  {
    ReplayLevelMembers(path, parent, keys, byTag, c);
  }

  /** The replay of one child creates each folder at most once: its own folder first, and
      every folder below it has a longer path. */
  lemma {:induction false} ReplayNodeFolderOnce(path: seq<string>, key: string, node: TagNode, byTag: ByTag, c: Create)
    requires c.CreateFolder?
    ensures multiset(ReplayNode(path, key, node, byTag))[c] <= 1
    decreases node, |node.children.Keys| + 1
  {
    var here := path + [key];
    var own := CreateFolder(path, key);
    var entries := if node.isTag && node.fullName != "" then Entries(here, Get(byTag, node.fullName)) else [];
    var below := if |node.children.Keys| > 0 then ReplayLevel(here, node, SortedKeys(node.children.Keys), byTag) else [];
    ReplayNodeParts(path, key, node, byTag);
    if node.isTag && node.fullName != "" {
      EntriesAreBookmarks(here, Get(byTag, node.fullName), c);
    }
    if |node.children.Keys| > 0 {
      var keys := SortedKeys(node.children.Keys);
      SortedKeysDistinct(node.children.Keys);
      ReplayLevelFolderOnce(here, node, keys, byTag, c);
      if own in below {
        ReplayLevelUnder(here, node, keys, byTag, own);
      }
    }
    AtMostOnceInParts(own, entries, below, c);
  }

  /** The loop over duplicate-free child keys creates each folder at most once: the
      subtrees of different keys create folders under different paths. */
  lemma {:induction false} ReplayLevelFolderOnce(path: seq<string>, parent: TagNode, keys: seq<string>, byTag: ByTag, c: Create)
    requires forall k :: k in keys ==> k in parent.children
    requires Distinct(keys)
    requires c.CreateFolder?
    ensures multiset(ReplayLevel(path, parent, keys, byTag))[c] <= 1
    decreases parent, |keys|
  {
    if keys != [] {
      var k := keys[0];
      assert k in keys;
      var first := ReplayNode(path, k, parent.children[k], byTag);
      var rest := ReplayLevel(path, parent, keys[1..], byTag);
      ReplayNodeFolderOnce(path, k, parent.children[k], byTag, c);
      ReplayLevelFolderOnce(path, parent, keys[1..], byTag, c);
      if c in first && c in rest {
        ReplayNodeUnder(path, k, parent.children[k], byTag, c);
        ReplayLevelUnder(path, parent, keys[1..], byTag, c);
      }
      AtMostOnceInEither(first, rest, c);
    }
  }

  /** The replay creates one folder for each node of the tree, titled with its segment
      and placed in its parent's folder, and no other folder; each exactly once. */
  lemma ReplayFolders(tree: Tree, byTag: ByTag, parent: seq<string>, title: string)
    ensures CreateFolder(parent, title) in Replay(tree, byTag) <==> HasNode(tree, parent + [title])
    ensures multiset(Replay(tree, byTag))[CreateFolder(parent, title)] == if HasNode(tree, parent + [title]) then 1 else 0
  {
    ReplayMembers(tree, byTag, CreateFolder(parent, title));
    LookupIsNodeAt(tree, parent + [title]);
    SortedKeysDistinct(tree.Keys);
    ReplayLevelFolderOnce([], TagNode(false, "", tree), SortedKeys(tree.Keys), byTag, CreateFolder(parent, title));
  }

  /** The replay puts an entry into the folder at `folder` exactly for the bookmarks in
      the bucket of that node's full name, when the node is a named tag. */
  lemma ReplayEntries(tree: Tree, byTag: ByTag, folder: seq<string>, title: string, url: string)
    ensures CreateBookmark(folder, title, url) in Replay(tree, byTag) <==>
              |folder| >= 1 && Lookup(tree, folder).Some?
              && EntryFor(Lookup(tree, folder).value, CreateBookmark(folder, title, url), byTag)
  {
    ReplayMembers(tree, byTag, CreateBookmark(folder, title, url));
    if |folder| >= 1 {
      LookupIsNodeAt(tree, folder);
    }
  }

  /** Bookmark `b` is filed under a non-empty tag whose segment path is `folder`. */
  predicate FiledAt(b: Bookmark, folder: seq<string>)
  {
    exists t :: t in BucketTags(b) && t != "" && Split(t, '.') == folder
  }

  /** The sync replays the tree of the grouping's tags: there is one folder for each
      prefix of a tag's segment path. */
  lemma SyncFolders(keys: seq<string>, byTag: ByTag, parent: seq<string>, title: string)
    ensures CreateFolder(parent, title) in Replay(BuildTree(keys), byTag) <==>
              SomePathExtends(keys, parent + [title])
    ensures multiset(Replay(BuildTree(keys), byTag))[CreateFolder(parent, title)] ==
              if SomePathExtends(keys, parent + [title]) then 1 else 0
  {
    ReplayFolders(BuildTree(keys), byTag, parent, title);
    BuildTreeNodes(keys, parent + [title]);
  }

  /** The sync puts an entry for bookmark `b` into folder `folder` exactly when `b` is
      filed under a tag whose segment path is `folder`; the entry is titled with the
      bookmark's display title and points at its URL. */
  lemma SyncEntries(bookmarks: seq<Bookmark>, keys: seq<string>, folder: seq<string>, title: string, url: string)
    requires forall t :: t in keys <==> t in Grouped(bookmarks)
    ensures CreateBookmark(folder, title, url) in Replay(BuildTree(keys), Grouped(bookmarks)) <==>
              exists b :: b in bookmarks && FiledAt(b, folder) && title == DisplayTitle(b) && url == b.url
  {
    var tree := BuildTree(keys);
    var byTag := Grouped(bookmarks);
    var c := CreateBookmark(folder, title, url);
    ReplayEntries(tree, byTag, folder, title, url);
    if c in Replay(tree, byTag) {
      var n := Lookup(tree, folder).value;
      BuildTreeTags(keys, folder);
      var i :| 0 <= i < |keys| && Split(keys[i], '.') == folder;
      JoinSplit(keys[i], '.');
      var b :| b in Get(byTag, n.fullName) && title == DisplayTitle(b) && url == b.url;
      GroupedMembership(bookmarks, n.fullName, b);
      assert FiledAt(b, folder);
    }
    if exists b :: b in bookmarks && FiledAt(b, folder) && title == DisplayTitle(b) && url == b.url {
      var b :| b in bookmarks && FiledAt(b, folder) && title == DisplayTitle(b) && url == b.url;
      var t :| t in BucketTags(b) && t != "" && Split(t, '.') == folder;
      GroupedMembership(bookmarks, t, b);
      assert t in keys;
      var i :| 0 <= i < |keys| && keys[i] == t;
      BuildTreeTags(keys, folder);
      JoinSplit(t, '.');
      assert EntryFor(Lookup(tree, folder).value, c, byTag);
    }
  }
}
