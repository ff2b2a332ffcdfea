/**
 * What `buildTree` produces on lists that follow the path convention of the
 * sample data (each child path is its parent's path, a slash and its own id):
 * the subtree under an item holds exactly the items whose path lies below it,
 * and with no dangling parents every item is placed somewhere in the forest.
 */
module BuildTreePaths {
  import opened Wrappers
  import opened Strings
  import opened Seqs
  import opened TreeTypes
  import opened TreeUtils
  import opened BuildTree

  /** The path convention rules out cycles: a parent's path is a proper prefix of its child's. */
  lemma WellFormedIsAcyclic(items: seq<Item>)
    requires PathsWellFormed(items)
    ensures ParentPathsShorter(items)
  {
    forall i, j | 0 <= i < |items| && 0 <= j < |items| && ParentId(items[i].path) == Some(items[j].id)
      ensures |items[j].path| < |items[i].path|
    {
      assert items[i].path == items[j].path + "/" + items[i].id;
    }
  }

  /** Under the convention an id never contains a slash, since it is the last segment of a path. */
  lemma IdHasNoSlash(items: seq<Item>, x: Item)
    requires PathsWellFormed(items)
    requires x in items
    ensures '/' !in x.id
  {
    var i :| 0 <= i < |items| && items[i] == x;
    assert LastSegment(x.path) == x.id;
  }

  /** Paths identify items: the last segment is the id, and ids are unique. */
  lemma SamePathSameItem(items: seq<Item>, p: Item, q: Item)
    requires PathsWellFormed(items)
    requires p in items && q in items
    requires p.path == q.path
    ensures p == q
  {
    var i :| 0 <= i < |items| && items[i] == p;
    var j :| 0 <= j < |items| && items[j] == q;
    assert LastSegment(p.path) == p.id && LastSegment(q.path) == q.id;
  }

  lemma PrefixCharAt(p: string, s: string, i: nat)
    requires IsPrefix(p, s) && i < |p|
    ensures s[i] == p[i]
  {
    assert s[i] == s[..|p|][i];
  }

  /**
   * A path one segment below `b` lies below `a` only if `b` is `a` itself or
   * already lies below `a`.
   */
  lemma DescendantOfChildPath(a: string, b: string, c: string)
    requires '/' !in c
    requires IsDescendantPath(b + "/" + c, a)
    ensures a == b || IsDescendantPath(b, a)
  {
    var s := b + "/" + c;
    if |a| < |b| {
      assert b[..|a| + 1] == s[..|a| + 1];
    } else if |a| == |b| {
      assert a == s[..|a|] == b;
    } else {
      PrefixCharAt(a + "/", s, |a|);
    }
  }

  /** Every linked child id names an item whose path lies below its parent's path. */
  predicate PathLinked(m: map<string, Item>, kids: map<string, seq<string>>)
  {
    forall p, k :: p in m && 0 <= k < |ChildIds(kids, p)| ==>
      ChildIds(kids, p)[k] in m && IsDescendantPath(m[ChildIds(kids, p)[k]].path, m[p].path)
  }

  /** The links built from a list following the path convention only join a path to one directly below it. */
  lemma PathLinkedFromWellFormed(items: seq<Item>)
    requires PathsWellFormed(items)
    ensures PathLinked(ItemMap(items), Link(items, ItemMap(items)).kids)
  {
    var m := ItemMap(items);
    var kids := Link(items, m).kids;
    forall p, k | p in m && 0 <= k < |ChildIds(kids, p)|
      ensures ChildIds(kids, p)[k] in m && IsDescendantPath(m[ChildIds(kids, p)[k]].path, m[p].path)
    {
      assert ChildIds(kids, p) == Ids(ChildItems(items, p));
      ChildIdsResolve(items, p);
      var c := ChildIds(kids, p)[k];
      assert c in Ids(ChildItems(items, p));
      var i :| 0 <= i < |items| && items[i] == m[c];
      var j :| 0 <= j < |items| && items[j] == m[p];
      assert m[c].path == m[p].path + "/" + m[c].id;
      assert m[c].path[..|m[p].path + "/"|] == m[p].path + "/";
    }
  }

  /** Below the level of the input list: everything under `r`'s cleaned-up node is a mapped item, `m[r]` or one whose path lies below it. */
  lemma {:induction false} CleanSubtreeBelow(m: map<string, Item>, kids: map<string, seq<string>>, r: string, x: Item) returns (id: string)
    requires Ranked(m, kids) && PathLinked(m, kids) && r in m
    requires InTree(Cleanup(Materialize(m, kids, r)), x)
    ensures id in m && m[id] == x
    ensures x == m[r] || IsDescendantPath(x.path, m[r].path)
    decreases AtOrBelow(m, r)
  {
    var n := Cleanup(Materialize(m, kids, r));
    CleanNodeUnfold(m, kids, r);
    if x == m[r] {
      id := r;
    } else {
      var k := InSomeKid(n, x);
      var c := ChildIds(kids, r)[k];
      AtOrBelowShrinks(m, r, c);
      id := CleanSubtreeBelow(m, kids, c, x);
      if x != m[c] {
        DescendantTransitive(m[r].path, m[c].path, x.path);
      }
    }
  }

  /** Everything in the subtree of `r`'s node is `r` or an input item whose path lies below `r`'s. */
  lemma SubtreeBelow(items: seq<Item>, r: Item, x: Item)
    requires PathsWellFormed(items)
    requires r in items
    requires InTree((WellFormedIsAcyclic(items); NodeFor(items, r)), x)
    ensures x in items
    ensures x == r || IsDescendantPath(x.path, r.path)
  {
    WellFormedIsAcyclic(items);
    var m := ItemMap(items);
    RankedFromPaths(items);
    ItemMapOfUnique(items);
    PathLinkedFromWellFormed(items);
    var id := CleanSubtreeBelow(m, Link(items, m).kids, r.id, x);
  }

  /** If `p` is in the subtree of `r`'s node, so are `p`'s listed children. */
  lemma SubtreeTakesChildren(items: seq<Item>, r: Item, p: Item, c: Item)
    requires UniqueIds(items) && ParentPathsShorter(items)
    requires r in items && p in items
    requires InTree(NodeFor(items, r), p)
    requires c in ChildItems(items, p.id)
    ensures InTree(NodeFor(items, r), c)
  {
    var m := ItemMap(items);
    RankedFromPaths(items);
    ItemMapOfUnique(items);
    FilterMembers(items, ChildOf(p.id));
    ChildLink(items, p, c);
    CleanTakesChildren(m, Link(items, m).kids, r.id, p.id, c.id);
  }

  /** The parent named by a non-root path of a closed, well-formed list, with the path it extends. */
  lemma ParentItem(items: seq<Item>, x: Item) returns (p: Item)
    requires PathsWellFormed(items) && ParentsPresent(items)
    requires x in items
    requires ParentId(x.path).Some?
    ensures p in items
    ensures x.path == p.path + "/" + x.id
    ensures ParentId(x.path) == Some(p.id)
    ensures x in ChildItems(items, p.id)
  {
    var i :| 0 <= i < |items| && items[i] == x;
    var j :| 0 <= j < |items| && ParentId(items[i].path) == Some(items[j].id);
    p := items[j];
    FilterMembers(items, ChildOf(p.id));
  }

  /** A path lying below another has more than one segment, so it names a parent. */
  lemma DescendantHasParent(d: string, a: string)
    requires IsDescendantPath(d, a)
    ensures ParentId(d).Some?
  {
    RootPathHasNoSlash(d);
    assert d[|a|] == '/';
  }

  /** The parent of an item below `r` is `r` itself or lies below `r` too. */
  lemma ParentBelow(items: seq<Item>, r: Item, x: Item) returns (p: Item)
    requires PathsWellFormed(items) && ParentsPresent(items)
    requires r in items && x in items
    requires IsDescendantPath(x.path, r.path)
    ensures p in items && x in ChildItems(items, p.id)
    ensures |p.path| < |x.path|
    ensures p == r || IsDescendantPath(p.path, r.path)
  {
    DescendantHasParent(x.path, r.path);
    p := ParentItem(items, x);
    IdHasNoSlash(items, x);
    DescendantOfChildPath(r.path, p.path, x.id);
    if p.path == r.path {
      SamePathSameItem(items, p, r);
    }
  }

  /** Every input item whose path lies below `r`'s is in the subtree of `r`'s node. */
  lemma {:induction false} SubtreeAbove(items: seq<Item>, r: Item, x: Item)
    requires PathsWellFormed(items) && ParentsPresent(items)
    requires r in items && x in items
    requires IsDescendantPath(x.path, r.path)
    ensures InTree((WellFormedIsAcyclic(items); NodeFor(items, r)), x)
    decreases |x.path|
  {
    WellFormedIsAcyclic(items);
    var p := ParentBelow(items, r, x);
    if p == r {
      NodeForUnfold(items, r);
      SubtreeTakesChildren(items, r, r, x);
    } else {
      SubtreeAbove(items, r, p);
      SubtreeTakesChildren(items, r, p, x);
    }
  }

  /**
   * The subtree under an item's node holds exactly that item and the input
   * items whose path starts with its path and a slash.
   */
  lemma SubtreeIsPathPrefix(items: seq<Item>, r: Item, x: Item)
    requires PathsWellFormed(items) && ParentsPresent(items)
    requires r in items
    ensures InTree((WellFormedIsAcyclic(items); NodeFor(items, r)), x) <==>
      x in items && (x == r || IsDescendantPath(x.path, r.path))
  {
    WellFormedIsAcyclic(items);
    if InTree(NodeFor(items, r), x) {
      SubtreeBelow(items, r, x);
    }
    if x in items && x == r {
      NodeForShape(items, r);
    }
    if x in items && IsDescendantPath(x.path, r.path) {
      SubtreeAbove(items, r, x);
    }
  }

  /** Whatever sits under a root item's node is in the forest. */
  lemma RootSubtreeInForest(items: seq<Item>, r: Item, x: Item)
    requires UniqueIds(items) && ParentPathsShorter(items)
    requires r in items && IsRootItem(r)
    requires InTree(NodeFor(items, r), x)
    ensures InForest(BuildTree.BuildTree(items), x)
  {
    FilterMembers(items, IsRootItem);
    assert r in RootItems(items);
    var k :| 0 <= k < |RootItems(items)| && RootItems(items)[k] == r;
    BuildTreeRoots(items);
    assert BuildTree.BuildTree(items)[k] == NodeFor(items, r);
  }

  /** With no dangling parents, every input item is placed somewhere in the forest. */
  lemma {:induction false} EveryItemPlaced(items: seq<Item>, x: Item)
    requires PathsWellFormed(items) && ParentsPresent(items)
    requires x in items
    ensures InForest((WellFormedIsAcyclic(items); BuildTree.BuildTree(items)), x)
    decreases |x.path|
  {
    WellFormedIsAcyclic(items);
    if ParentId(x.path).None? {
      NodeForUnfold(items, x);
      RootSubtreeInForest(items, x, x);
    } else {
      var p := ParentItem(items, x);
      EveryItemPlaced(items, p);
      var r := InBuildTree(items, p);
      SubtreeTakesChildren(items, r, p, x);
      RootSubtreeInForest(items, r, x);
    }
  }
}
