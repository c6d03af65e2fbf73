/** `buildTagTree`: dotted tag names become a tree of folders. The same function appears
    in manager.js, view.js and options.js; this one model serves all three. */
module TagTree {
  import opened Wrappers
  import opened Strings

  /** A folder node: `__isTag`, `__fullName` (empty while the node is no tag) and `__children`. */
  datatype TagNode = TagNode(isTag: bool, fullName: string, children: map<string, TagNode>)

  type Tree = map<string, TagNode>

  /** `{ __children: {} }`, the node created for a segment seen for the first time. */
  const Scaffold: TagNode := TagNode(false, "", map[])

  /** The cursor walk for one tag: create missing nodes along `parts` and mark the last. */
  function Insert(tree: Tree, parts: seq<string>, tag: string): Tree
    requires |parts| >= 1
    decreases |parts|
  {
    var part := parts[0];
    var node := if part in tree then tree[part] else Scaffold;
    if |parts| == 1 then tree[part := node.(isTag := true, fullName := tag)]
    else tree[part := node.(children := Insert(node.children, parts[1..], tag))]
  }

  /** The tree of a list of tags: the tree of all but the last, then the last inserted. */
  function BuildTree(tags: seq<string>): Tree
    decreases |tags|
  {
    if tags == [] then map[]
    else
      var tag := tags[|tags| - 1];
      Insert(BuildTree(tags[..|tags| - 1]), Split(tag, '.'), tag)
  }

  /** The node reached by walking `path` from the root, if any. */
  function Lookup(tree: Tree, path: seq<string>): Option<TagNode>
    requires |path| >= 1
    decreases |path|
  {
    if path[0] !in tree then None
    else if |path| == 1 then Some(tree[path[0]])
    else Lookup(tree[path[0]].children, path[1..])
  }

  predicate HasNode(tree: Tree, path: seq<string>)
  {
    |path| >= 1 && Lookup(tree, path).Some?
  }

  /** The full name of the node at `path` when that node is marked as a tag. */
  function TagAt(tree: Tree, path: seq<string>): Option<string>
  {
    if |path| >= 1 && Lookup(tree, path).Some? && Lookup(tree, path).value.isTag
    then Some(Lookup(tree, path).value.fullName)
    else None
  }

  predicate IsPrefix(p: seq<string>, q: seq<string>)
  {
    |p| <= |q| && q[..|p|] == p
  }

  /** The loop of `buildTagTree`. */
  method BuildTagTree(tags: seq<string>) returns (tree: Tree)
    ensures tree == BuildTree(tags)
    ensures forall i :: 0 <= i < |tags| ==> TagAt(tree, Split(tags[i], '.')) == Some(tags[i])
    ensures forall path :: TagAt(tree, path).Some? ==>
              TagAt(tree, path).value in tags && Split(TagAt(tree, path).value, '.') == path
  {
    tree := map[];
    var i := 0;
    while i < |tags|
      invariant 0 <= i <= |tags|
      invariant tree == BuildTree(tags[..i])
    {
      var tag := tags[i];
      tree := Insert(tree, Split(tag, '.'), tag);
      assert tags[..i + 1][..i] == tags[..i];
      i := i + 1;
    }
    assert tags[..|tags|] == tags;
    forall k | 0 <= k < |tags| ensures TagAt(tree, Split(tags[k], '.')) == Some(tags[k]) {
      TagReachable(tags, tags[k]);
    }
    forall path | TagAt(tree, path).Some?
      ensures TagAt(tree, path).value in tags && Split(TagAt(tree, path).value, '.') == path
    {
      NoExtraTags(tags, path);
    }
  }

  /** Inserting one tag adds exactly the prefixes of its path as nodes and marks only its
      own path, with its name; every other node keeps its mark. */
  lemma {:induction false} InsertEffect(tree: Tree, parts: seq<string>, tag: string, q: seq<string>)
    requires |parts| >= 1 && |q| >= 1
    ensures HasNode(Insert(tree, parts, tag), q) <==> HasNode(tree, q) || IsPrefix(q, parts)
    ensures TagAt(Insert(tree, parts, tag), q) == if q == parts then Some(tag) else TagAt(tree, q)
    decreases |parts|
  {
    var part := parts[0];
    var node := if part in tree then tree[part] else Scaffold;
    var t' := Insert(tree, parts, tag);
    if q[0] != part {
      assert q[..1] != parts[..1];
      if |q| > 1 {
        assert Lookup(t', q) == Lookup(tree, q);
      }
    } else if |q| == 1 {
      assert IsPrefix(q, parts) by { assert parts[..1] == [parts[0]]; }
    } else {
      assert q[1..] == parts[1..] <==> q == parts by {
        assert q == [q[0]] + q[1..];
        assert parts == [parts[0]] + parts[1..];
      }
      assert IsPrefix(q[1..], parts[1..]) <==> IsPrefix(q, parts) by {
        if |q| <= |parts| {
          assert parts[..|q|] == [parts[0]] + parts[1..][..|q| - 1];
          assert q == [q[0]] + q[1..];
        }
      }
      assert Lookup(tree, q) == (if part in tree then Lookup(node.children, q[1..]) else None);
      if part !in tree {
        assert Lookup(node.children, q[1..]) == None;
      }
      if |parts| == 1 {
        assert !IsPrefix(q, parts);
        assert Lookup(t', q) == Lookup(node.children, q[1..]);
      } else {
        InsertEffect(node.children, parts[1..], tag, q[1..]);
        assert Lookup(t', q) == Lookup(Insert(node.children, parts[1..], tag), q[1..]);
      }
    }
  }

  /** Some tag's segment path starts with `q`. */
  predicate SomePathExtends(tags: seq<string>, q: seq<string>)
  {
    exists i :: 0 <= i < |tags| && IsPrefix(q, Split(tags[i], '.'))
  }

  /** Some tag's segment path is `q`. */
  predicate SomePathIs(tags: seq<string>, q: seq<string>)
  {
    exists i :: 0 <= i < |tags| && Split(tags[i], '.') == q
  }

  /** The nodes of the tree are exactly the non-empty prefixes of the tags' segment paths. */
  lemma {:induction false} BuildTreeNodes(tags: seq<string>, q: seq<string>)
    requires |q| >= 1
    ensures HasNode(BuildTree(tags), q) <==> SomePathExtends(tags, q)
    decreases |tags|
  {
    if tags != [] {
      var init := tags[..|tags| - 1];
      var tag := tags[|tags| - 1];
      BuildTreeNodes(init, q);
      InsertEffect(BuildTree(init), Split(tag, '.'), tag, q);
      if SomePathExtends(init, q) {
        var i :| 0 <= i < |init| && IsPrefix(q, Split(init[i], '.'));
        assert init[i] == tags[i];
      }
      if SomePathExtends(tags, q) && !IsPrefix(q, Split(tag, '.')) {
        var i :| 0 <= i < |tags| && IsPrefix(q, Split(tags[i], '.'));
        assert i < |init| && init[i] == tags[i];
      }
    }
  }

  /** The tag nodes are exactly the tags' full segment paths, each named by its dotted path. */
  lemma {:induction false} BuildTreeTags(tags: seq<string>, q: seq<string>)
    requires |q| >= 1
    ensures TagAt(BuildTree(tags), q) == if SomePathIs(tags, q) then Some(Join(q, ".")) else None
    decreases |tags|
  {
    if tags != [] {
      var init := tags[..|tags| - 1];
      var tag := tags[|tags| - 1];
      BuildTreeTags(init, q);
      InsertEffect(BuildTree(init), Split(tag, '.'), tag, q);
      if q == Split(tag, '.') {
        JoinSplit(tag, '.');
        assert SomePathIs(tags, q) by { assert Split(tags[|tags| - 1], '.') == q; }
      } else {
        if SomePathIs(init, q) {
          var i :| 0 <= i < |init| && Split(init[i], '.') == q;
          assert init[i] == tags[i];
        }
        if SomePathIs(tags, q) {
          var i :| 0 <= i < |tags| && Split(tags[i], '.') == q;
          assert i < |init| && init[i] == tags[i];
        }
      }
    }
  }

  /** Walking a tag's segments from the root reaches a node marked as that tag. */
  lemma TagReachable(tags: seq<string>, tag: string)
    requires tag in tags
    ensures TagAt(BuildTree(tags), Split(tag, '.')) == Some(tag)
  {
    var i :| 0 <= i < |tags| && tags[i] == tag;
    BuildTreeTags(tags, Split(tag, '.'));
    JoinSplit(tag, '.');
  }

  /** A node is marked only when its path is an input tag's path, and its name is that tag:
      the scaffolding created for longer tags stays unmarked. */
  lemma NoExtraTags(tags: seq<string>, q: seq<string>)
    ensures TagAt(BuildTree(tags), q).Some? ==>
              TagAt(BuildTree(tags), q).value in tags && Split(TagAt(BuildTree(tags), q).value, '.') == q
  {
    if |q| >= 1 && TagAt(BuildTree(tags), q).Some? {
      BuildTreeTags(tags, q);
      var i :| 0 <= i < |tags| && Split(tags[i], '.') == q;
      JoinSplit(tags[i], '.');
    }
  }

  /** A tag with a leading dot and a non-empty second segment, such as `.a.b`. */
  predicate LeadingDot(parts: seq<string>)
  {
    |parts| >= 2 && parts[0] == "" && parts[1] != ""
  }

  /** The running path after `i` segments: an empty path is replaced by the next segment,
      any other is extended by a dot and the segment. */
  function PathAfter(parts: seq<string>, i: nat): string
    requires i <= |parts|
  {
    if i == 0 then ""
    else
      var p := PathAfter(parts, i - 1);
      if p != "" then p + "." + parts[i - 1] else parts[i - 1]
  }

  /** With a non-empty first segment, the running path is the dotted prefix. */
  lemma {:induction false} PathAfterJoin(parts: seq<string>, k: nat)
    requires k < |parts| && parts[0] != ""
    ensures PathAfter(parts, k + 1) == Join(parts[..k + 1], ".") != ""
  {
    if k == 0 {
      assert parts[..1] == [parts[0]];
    } else {
      PathAfterJoin(parts, k - 1);
      JoinAppend(parts[..k], parts[k], ".");
      assert parts[..k + 1] == parts[..k] + [parts[k]];
    }
  }

  /** With a leading dot, the first running path is empty and the later ones are the
      dotted prefixes of the segments after it. */
  lemma {:induction false} PathAfterLeadingDot(parts: seq<string>, k: nat)
    requires 1 <= k < |parts| && LeadingDot(parts)
    ensures PathAfter(parts, 1) == ""
    ensures PathAfter(parts, k + 1) == Join(parts[1..k + 1], ".") != ""
  {
    if k == 1 {
      assert parts[1..2] == [parts[1]];
    } else {
      PathAfterLeadingDot(parts, k - 1);
      JoinAppend(parts[1..k], parts[k], ".");
      assert parts[1..k + 1] == parts[1..k] + [parts[k]];
    }
  }

  /** The open-folder restore loop: the dotted prefixes `a`, `a.b`, `a.b.c` of a tag, built
      the way the source builds them (an empty running path is replaced, not extended, so
      `.a.b` gives ``, `a`, `a.b`). */
  method AncestorPaths(tag: string) returns (paths: seq<string>)
    ensures |paths| == |Split(tag, '.')|
    ensures forall k :: 0 <= k < |paths| ==> paths[k] == PathAfter(Split(tag, '.'), k + 1)
    ensures Split(tag, '.')[0] != "" ==>
              forall k :: 0 <= k < |paths| ==> paths[k] == Join(Split(tag, '.')[..k + 1], ".")
    ensures Split(tag, '.')[0] != "" ==> paths[|paths| - 1] == tag
    ensures LeadingDot(Split(tag, '.')) ==>
              paths[0] == "" && forall k :: 1 <= k < |paths| ==> paths[k] == Join(Split(tag, '.')[1..k + 1], ".")
  {
    var parts := Split(tag, '.');
    var currentPath := "";
    paths := [];
    var i := 0;
    while i < |parts|
      invariant 0 <= i <= |parts| && |paths| == i
      invariant forall k :: 0 <= k < i ==> paths[k] == PathAfter(parts, k + 1)
      invariant currentPath == PathAfter(parts, i)
    {
      currentPath := if currentPath != "" then currentPath + "." + parts[i] else parts[i];
      paths := paths + [currentPath];
      i := i + 1;
    }
    if parts[0] != "" {
      forall k | 0 <= k < |paths| ensures paths[k] == Join(parts[..k + 1], ".") {
        PathAfterJoin(parts, k);
      }
      assert parts[..|parts|] == parts;
      JoinSplit(tag, '.');
    }
    if LeadingDot(parts) {
      forall k | 1 <= k < |paths| ensures paths[k] == Join(parts[1..k + 1], ".") {
        PathAfterLeadingDot(parts, k);
      }
      PathAfterLeadingDot(parts, 1);
    }
  }

  /** Every dotted prefix of a tag in use splits back into its segments and names a folder
      node of the tree. */
  lemma AncestorsAreFolders(tags: seq<string>, tag: string, k: nat)
    requires tag in tags && k < |Split(tag, '.')|
    ensures HasNode(BuildTree(tags), Split(tag, '.')[..k + 1])
    ensures Split(Join(Split(tag, '.')[..k + 1], "."), '.') == Split(tag, '.')[..k + 1]
  {
    var parts := Split(tag, '.');
    var i :| 0 <= i < |tags| && tags[i] == tag;
    BuildTreeNodes(tags, parts[..k + 1]);
    assert IsPrefix(parts[..k + 1], Split(tags[i], '.'));
    SplitJoin(parts[..k + 1], '.');
  }

  /** For a tag in use without a leading dot, every path the open-folder loop visits (the
      `k`-th result of `AncestorPaths`) splits into a prefix of the tag's segments that
      names a folder node of the tree. */
  lemma AncestorPathsAreFolders(tags: seq<string>, tag: string, k: nat)
    requires tag in tags && k < |Split(tag, '.')| && Split(tag, '.')[0] != ""
    ensures Split(PathAfter(Split(tag, '.'), k + 1), '.') == Split(tag, '.')[..k + 1]
    ensures HasNode(BuildTree(tags), Split(PathAfter(Split(tag, '.'), k + 1), '.'))
  {
    PathAfterJoin(Split(tag, '.'), k);
    AncestorsAreFolders(tags, tag, k);
  }
}
