/** Path helpers and the flat "item or one of its descendants matches" predicate. */
module TreeUtils {
  import opened Wrappers
  import opened Strings
  import opened Seqs
  import opened TreeTypes
  import opened Match

  /** `path.split('/')` */
  function Segments(path: string): seq<string>
  {
    Split(path, '/')
  }

  /** The last path segment; for a well-formed path this is the item's own id. */
  function LastSegment(path: string): string
  {
    var segs := Segments(path);
    segs[|segs| - 1]
  }

  /** A root path has a single segment, i.e. contains no slash. */
  predicate IsRootPath(path: string)
  {
    |Segments(path)| == 1
  }

  /** The second-to-last segment, which names the parent; none for a root path. */
  function ParentId(path: string): Option<string>
  {
    var segs := Segments(path);
    if |segs| == 1 then None else Some(segs[|segs| - 2])
  }

  /** `getDepth`: the number of slashes in the path, so 0 for a root. */
  function GetDepth(path: string): (depth: nat)
    ensures depth == Count(path, '/')
  {
    SplitLength(path, '/');
    |Segments(path)| - 1
  }

  /**
   * `getAncestorIds`: the path's segments without the last one, one per level
   * above the item; they and the last segment join back into the path.
   */
  function GetAncestorIds(path: string): (ancestors: seq<string>)
    ensures |ancestors| == GetDepth(path)
    ensures Join(ancestors + [LastSegment(path)], '/') == path
    ensures forall k :: 0 <= k < |ancestors| ==> '/' !in ancestors[k]
  {
    var segs := Segments(path);
    assert segs[..|segs| - 1] + [segs[|segs| - 1]] == segs;
    segs[..|segs| - 1]
  }

  lemma RootPathHasNoSlash(path: string)
    ensures IsRootPath(path) <==> '/' !in path
  {
    if '/' !in path {
      SplitNoSep(path, '/');
    } else {
      SplitLength(path, '/');
      CountPositive(path, '/');
    }
  }

  lemma {:induction false} CountPositive(s: string, c: char)
    requires c in s
    ensures Count(s, c) > 0
    decreases |s|
  {
    if s[0] != c {
      assert c in s[1..];
      CountPositive(s[1..], c);
    }
  }

  /** A root path has no ancestors, depth 0 and no parent. */
  lemma RootPathAncestors(path: string)
    requires '/' !in path
    ensures GetAncestorIds(path) == []
    ensures GetDepth(path) == 0
    ensures ParentId(path) == None
    ensures LastSegment(path) == path
  {
    SplitNoSep(path, '/');
  }

  /**
   * Extending a path by one id: the ancestors become the parent path's segments,
   * the depth grows by one, the parent is the parent path's last segment.
   */
  lemma ChildPathAncestors(parent: string, id: string)
    requires '/' !in id
    ensures GetAncestorIds(parent + "/" + id) == Segments(parent)
    ensures GetDepth(parent + "/" + id) == GetDepth(parent) + 1
    ensures ParentId(parent + "/" + id) == Some(LastSegment(parent))
    ensures LastSegment(parent + "/" + id) == id
  {
    SplitAppend(parent, id, '/');
    SplitNoSep(id, '/');
    var segs := Segments(parent + "/" + id);
    assert segs == Segments(parent) + [id];
    assert segs[..|segs| - 1] == Segments(parent);
  }

  /** `d` lies strictly below `a`: it starts with `a + "/"`. */
  predicate IsDescendantPath(d: string, a: string)
  {
    IsPrefix(a + "/", d)
  }

  /** A path never counts as its own descendant. */
  lemma NotOwnDescendant(p: string)
    ensures !IsDescendantPath(p, p)
  {
  }

  lemma DescendantTransitive(a: string, b: string, c: string)
    requires IsDescendantPath(b, a) && IsDescendantPath(c, b)
    ensures IsDescendantPath(c, a)
  {
    assert IsPrefix(a + "/", b + "/") by {
      assert (b + "/")[..|a + "/"|] == b[..|a + "/"|];
    }
    PrefixTransitive(a + "/", b + "/", c);
  }

  /**
   * `itemOrDescendantsMatch` over the flat list: true when the item matches
   * directly or some item whose path starts with `item.path + "/"` does.
   */
  function ItemOrDescendantsMatch(item: Item, allItems: seq<Item>, query: string, filter: PriorityFilter): (matched: bool)
    ensures matched <==>
      DirectMatch(item, query, filter)
      || exists k :: 0 <= k < |allItems| && IsDescendantPath(allItems[k].path, item.path) && DirectMatch(allItems[k], query, filter)
  {
    if DirectMatch(item, query, filter) then true
    else
      var descendants := Filter(allItems, (i: Item) => IsPrefix(item.path + "/", i.path) && i.path != item.path);
      var found := Any(descendants, (d: Item) => DirectMatch(d, query, filter));
      FilterMembers(allItems, (i: Item) => IsPrefix(item.path + "/", i.path) && i.path != item.path);
      assert found <==> exists k :: 0 <= k < |allItems| && IsDescendantPath(allItems[k].path, item.path) && DirectMatch(allItems[k], query, filter) by {
        if found {
          var d :| d in descendants && DirectMatch(d, query, filter);
          var k :| 0 <= k < |allItems| && allItems[k] == d;
        } else {
          forall k | 0 <= k < |allItems| && IsDescendantPath(allItems[k].path, item.path)
            ensures !DirectMatch(allItems[k], query, filter)
          {
            assert allItems[k] in descendants;
          }
        }
      }
      found
  }

  /** With an empty query and the "all" filter every item is accepted. */
  lemma DefaultsAcceptEverything(item: Item, allItems: seq<Item>)
    ensures ItemOrDescendantsMatch(item, allItems, "", All)
  {
  }

  /** If an item is accepted, so is every ancestor path of it (whether or not that ancestor matches itself). */
  lemma AcceptedPropagatesUp(ancestor: Item, item: Item, allItems: seq<Item>, query: string, filter: PriorityFilter)
    requires item in allItems
    requires IsDescendantPath(item.path, ancestor.path)
    requires ItemOrDescendantsMatch(item, allItems, query, filter)
    ensures ItemOrDescendantsMatch(ancestor, allItems, query, filter)
  {
    if DirectMatch(item, query, filter) {
      var k :| 0 <= k < |allItems| && allItems[k] == item;
    } else {
      var k :| 0 <= k < |allItems| && IsDescendantPath(allItems[k].path, item.path) && DirectMatch(allItems[k], query, filter);
      DescendantTransitive(ancestor.path, item.path, allItems[k].path);
    }
  }
}
