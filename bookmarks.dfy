/** A bookmark record as the server returns it, and lookups in the flat list of them. */
module Bookmarks {
  import opened Wrappers
  import opened Seqs

  /** The bucket name for bookmarks that carry no tag. */
  const UNTAGGED: string := "[Untagged]"

  /** One record of `/api/bookmarks/`. A missing (`null`) text field is the empty string:
      every use in the extension treats the two alike. */
  datatype Bookmark = Bookmark(
    id: int,
    url: string,
    title: string,
    websiteTitle: string,
    description: string,
    tagNames: seq<string>)

  /** The buckets a bookmark is filed under: its tags, or the untagged bucket alone. */
  function BucketTags(b: Bookmark): seq<string>
  {
    if |b.tagNames| > 0 then b.tagNames else [UNTAGGED]
  }

  /** `flat.findIndex(b => b.id === id)`: the first slot holding that id, or -1. */
  function FindIndex(flat: seq<Bookmark>, id: int): (r: int)
    ensures -1 <= r < |flat|
    ensures r == -1 <==> forall k :: 0 <= k < |flat| ==> flat[k].id != id
    ensures r >= 0 ==> flat[r].id == id && forall k :: 0 <= k < r ==> flat[k].id != id
    decreases |flat|
  {
    if flat == [] then -1
    else if flat[0].id == id then 0
    else
      var r := FindIndex(flat[1..], id);
      assert forall k :: 1 <= k < |flat| ==> flat[k] == flat[1..][k - 1];
      if r == -1 then -1 else r + 1
  }

  /** `flat.find(b => b.id === id)`. */
  function Find(flat: seq<Bookmark>, id: int): (r: Option<Bookmark>)
    ensures r.None? <==> forall k :: 0 <= k < |flat| ==> flat[k].id != id
    ensures r.Some? ==> r.value == flat[FindIndex(flat, id)]
  {
    var k := FindIndex(flat, id);
    if k == -1 then None else Some(flat[k])
  }

  /** Replaces the slot found by id, as `if (index !== -1) flat[index] = updated` does. */
  function ReplaceById(flat: seq<Bookmark>, id: int, updated: Bookmark): (r: seq<Bookmark>)
    ensures |r| == |flat|
    ensures FindIndex(flat, id) == -1 ==> r == flat
    ensures FindIndex(flat, id) >= 0 ==> r[FindIndex(flat, id)] == updated
    ensures forall k :: 0 <= k < |flat| && k != FindIndex(flat, id) ==> r[k] == flat[k]
  {
    var k := FindIndex(flat, id);
    if k == -1 then flat else flat[k := updated]
  }

  /** The flat list after deleting bookmark `id`. */
  function Without(flat: seq<Bookmark>, id: int): (r: seq<Bookmark>)
    ensures forall b :: b in r <==> b in flat && b.id != id
    ensures IsSubsequence(r, flat)
    ensures forall b: Bookmark :: b.id != id ==> multiset(r)[b] == multiset(flat)[b]
  {
    FilterIsSubsequence(flat, (b: Bookmark) => b.id != id);
    forall b: Bookmark | b.id != id ensures multiset(Filter(flat, (b: Bookmark) => b.id != id))[b] == multiset(flat)[b] {
      FilterCount(flat, (b: Bookmark) => b.id != id, b);
    }
    Filter(flat, (b: Bookmark) => b.id != id)
  }
}
