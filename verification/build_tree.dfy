/**
 * `buildTree`: a forest built from a flat, path-addressed item list in two
 * passes (an id -> item map, then root and parent/child links in input
 * order), followed by the cleanup that drops empty `children` arrays.
 */
module BuildTree {
  import opened Wrappers
  import opened Strings
  import opened Seqs
  import opened TreeTypes
  import opened TreeUtils

  // ---------------------------------------------------------------------------
  // Conditions on the input list

  predicate UniqueIds(items: seq<Item>)
  {
    forall i, j :: 0 <= i < j < |items| ==> items[i].id != items[j].id
  }

  /** Every parent present in the list has a strictly shorter path, so following parents never cycles. */
  predicate ParentPathsShorter(items: seq<Item>)
  {
    forall i, j ::
      0 <= i < |items| && 0 <= j < |items| && ParentId(items[i].path) == Some(items[j].id)
      ==> |items[j].path| < |items[i].path|
  }

  /**
   * The path convention the sample data follows: unique ids, each path ends
   * in the item's own id, and a child's path is its parent's path, a slash
   * and its own id.
   */
  predicate PathsWellFormed(items: seq<Item>)
  {
    && UniqueIds(items)
    && (forall i :: 0 <= i < |items| ==> LastSegment(items[i].path) == items[i].id)
    && (forall i, j ::
          0 <= i < |items| && 0 <= j < |items| && ParentId(items[i].path) == Some(items[j].id)
          ==> items[i].path == items[j].path + "/" + items[i].id)
  }

  /** No dangling parents: every non-root item's parent id is the id of some item in the list. */
  predicate ParentsPresent(items: seq<Item>)
  {
    forall i :: 0 <= i < |items| && ParentId(items[i].path).Some? ==>
      exists j :: 0 <= j < |items| && ParentId(items[i].path) == Some(items[j].id)
  }

  // ---------------------------------------------------------------------------
  // Reference definitions: which items are roots, which are children of an id

  predicate IsRootItem(x: Item)
  {
    IsRootPath(x.path)
  }

  function ChildOf(parentId: string): Item -> bool
  {
    (x: Item) => ParentId(x.path) == Some(parentId)
  }

  /** The items with a single-segment path, in input order. */
  function RootItems(items: seq<Item>): seq<Item>
  {
    Filter(items, IsRootItem)
  }

  /** The items whose second-to-last path segment is `parentId`, in input order. */
  function ChildItems(items: seq<Item>, parentId: string): seq<Item>
  {
    Filter(items, ChildOf(parentId))
  }

  // ---------------------------------------------------------------------------
  // Pass 1: id -> item

  /** The lookup map: every input id maps to an input item carrying that id. */
  function ItemMap(items: seq<Item>): (m: map<string, Item>)
    ensures forall id :: id in m ==> m[id] in items && m[id].id == id
    ensures forall k :: 0 <= k < |items| ==> items[k].id in m
  {
    if |items| == 0 then map[]
    else
      var init := items[..|items| - 1];
      var last := items[|items| - 1];
      assert items == init + [last];
      ItemMap(init)[last.id := last]
  }

  /** For a repeated id the later item overwrites the earlier one: the map holds the last item with each id. */
  lemma {:induction false} ItemMapLastWins(items: seq<Item>, k: nat)
    requires k < |items|
    requires forall j :: k < j < |items| ==> items[j].id != items[k].id
    ensures ItemMap(items)[items[k].id] == items[k]
    decreases |items|
  {
    if k < |items| - 1 {
      ItemMapLastWins(items[..|items| - 1], k);
    }
  }

  lemma ItemMapOfUnique(items: seq<Item>)
    requires UniqueIds(items)
    ensures forall x :: x in items ==> ItemMap(items)[x.id] == x
  {
    forall x | x in items
      ensures ItemMap(items)[x.id] == x
    {
      var k :| 0 <= k < |items| && items[k] == x;
      ItemMapLastWins(items, k);
    }
  }

  // ---------------------------------------------------------------------------
  // Pass 2: roots and parent -> children links, in input order

  /** The roots (as ids) and, per parent id, the child ids attached to it. */
  datatype Links = Links(roots: seq<string>, kids: map<string, seq<string>>)

  /** A parent's child list; every node starts with an empty one. */
  function ChildIds(kids: map<string, seq<string>>, id: string): seq<string>
  {
    if id in kids then kids[id] else []
  }

  /**
   * The second pass over `items` with lookup map `m`: a single-segment path
   * makes a root; otherwise the item is appended to its parent's children if
   * the parent id is in `m`, and silently skipped if not.
   */
  function Link(items: seq<Item>, m: map<string, Item>): (links: Links)
    ensures links.roots == Ids(RootItems(items))
    ensures forall p :: ChildIds(links.kids, p) == if p in m then Ids(ChildItems(items, p)) else []
  {
    if |items| == 0 then Links([], map[])
    else
      var links := Link(items[..|items| - 1], m);
      LinkItemRoots(items, m, links);
      LinkItemKids(items, m, links);
      LinkItem(links, m, items[|items| - 1])
  }

  /** One iteration of the second pass: a root is appended to the roots, any other item to its parent's children if the parent is known. */
  function LinkItem(links: Links, m: map<string, Item>, item: Item): Links
  {
    var segs := Segments(item.path);
    if |segs| == 1 then links.(roots := links.roots + [item.id])
    else
      var parentId := segs[|segs| - 2];
      if parentId in m then links.(kids := links.kids[parentId := ChildIds(links.kids, parentId) + [item.id]])
      else links
  }

  lemma LinkItemRoots(items: seq<Item>, m: map<string, Item>, links: Links)
    requires |items| > 0
    requires links.roots == Ids(RootItems(items[..|items| - 1]))
    ensures LinkItem(links, m, items[|items| - 1]).roots == Ids(RootItems(items))
  {
    LinkStep(items);
    IdsSnoc(RootItems(items[..|items| - 1]), items[|items| - 1]);
  }

  lemma LinkItemKids(items: seq<Item>, m: map<string, Item>, links: Links)
    requires |items| > 0
    requires forall p :: ChildIds(links.kids, p) == if p in m then Ids(ChildItems(items[..|items| - 1], p)) else []
    ensures forall p :: ChildIds(LinkItem(links, m, items[|items| - 1]).kids, p) == if p in m then Ids(ChildItems(items, p)) else []
  {
    forall p
      ensures ChildIds(LinkItem(links, m, items[|items| - 1]).kids, p) == if p in m then Ids(ChildItems(items, p)) else []
    {
      LinkItemKid(items, m, links, p);
    }
  }

  /** The step for one parent id: its child list grows by the new item exactly when the item names it and it is known. */
  lemma LinkItemKid(items: seq<Item>, m: map<string, Item>, links: Links, p: string)
    requires |items| > 0
    requires ChildIds(links.kids, p) == if p in m then Ids(ChildItems(items[..|items| - 1], p)) else []
    ensures ChildIds(LinkItem(links, m, items[|items| - 1]).kids, p) == if p in m then Ids(ChildItems(items, p)) else []
  {
    var item := items[|items| - 1];
    LinkStepChild(items, p);
    if ParentId(item.path) == Some(p) && p in m {
      LinkItemAppends(links, m, item, p);
      IdsSnoc(ChildItems(items[..|items| - 1], p), item);
    } else {
      LinkItemUntouched(links, m, item, p);
    }
  }

  lemma LinkItemAppends(links: Links, m: map<string, Item>, item: Item, p: string)
    requires ParentId(item.path) == Some(p) && p in m
    ensures ChildIds(LinkItem(links, m, item).kids, p) == ChildIds(links.kids, p) + [item.id]
  {
  }

  lemma LinkItemUntouched(links: Links, m: map<string, Item>, item: Item, p: string)
    requires ParentId(item.path) != Some(p) || p !in m
    ensures ChildIds(LinkItem(links, m, item).kids, p) == ChildIds(links.kids, p)
  {
  }

  lemma IdsSnoc(items: seq<Item>, x: Item)
    ensures Ids(items + [x]) == Ids(items) + [x.id]
  {
    assert (items + [x])[..|items|] == items;
  }

  /** How one more item at the end changes the root list. */
  lemma LinkStep(items: seq<Item>)
    requires |items| > 0
    ensures RootItems(items) ==
      if IsRootItem(items[|items| - 1]) then RootItems(items[..|items| - 1]) + [items[|items| - 1]]
      else RootItems(items[..|items| - 1])
  {
  }

  /** How one more item at the end changes the child list of `p`. */
  lemma LinkStepChild(items: seq<Item>, p: string)
    requires |items| > 0
    ensures ChildItems(items, p) ==
      if ParentId(items[|items| - 1].path) == Some(p) then ChildItems(items[..|items| - 1], p) + [items[|items| - 1]]
      else ChildItems(items[..|items| - 1], p)
  {
  }

  // ---------------------------------------------------------------------------
  // Nesting: from links to nodes

  /** Every attached child is in the map and has a longer path than its parent. */
  predicate Ranked(m: map<string, Item>, kids: map<string, seq<string>>)
  {
    forall p, k :: p in m && 0 <= k < |ChildIds(kids, p)| ==>
      ChildIds(kids, p)[k] in m && |m[p].path| < |m[ChildIds(kids, p)[k]].path|
  }

  /** The ids whose item path is at least as long as that of `id`: shrinks going down the tree. */
  function AtOrBelow(m: map<string, Item>, id: string): set<string>
    requires id in m
  {
    set x | x in m && |m[x].path| >= |m[id].path|
  }

  lemma AtOrBelowShrinks(m: map<string, Item>, p: string, c: string)
    requires p in m && c in m && |m[p].path| < |m[c].path|
    ensures AtOrBelow(m, c) < AtOrBelow(m, p)
  {
    assert p in AtOrBelow(m, p);
  }

  /** The node for `id` with all its descendants attached (children arrays present, possibly empty). */
  function Materialize(m: map<string, Item>, kids: map<string, seq<string>>, id: string): (n: Node)
    requires Ranked(m, kids) && id in m
    ensures n.item == m[id]
    ensures n.children.Present? && |n.children.nodes| == |ChildIds(kids, id)|
    decreases AtOrBelow(m, id)
  {
    var cs := ChildIds(kids, id);
    Node(m[id], Present(seq(|cs|, k requires 0 <= k < |cs| =>
      AtOrBelowShrinks(m, id, cs[k]);
      Materialize(m, kids, cs[k]))))
  }

  /** No node below `n` (itself included) carries a present but empty `children` array. */
  predicate NoEmptyChildren(n: Node)
  {
    match n.children
    case Absent => true
    case Present(cs) => |cs| > 0 && forall k :: 0 <= k < |cs| ==> NoEmptyChildren(cs[k])
  }

  /** `cleanupChildren`: deletes every empty `children` array, recursing into non-empty ones. */
  function Cleanup(n: Node): (c: Node)
    ensures c.item == n.item
    ensures NoEmptyChildren(c)
    ensures |Kids(c)| == |Kids(n)|
    ensures Items(Kids(c)) == Items(Kids(n))
    ensures c.children.Absent? <==> |Kids(n)| == 0
  {
    match n.children
    case Absent => n
    case Present(cs) =>
      if |cs| == 0 then n.(children := Absent)
      else
        var cleaned := seq(|cs|, k requires 0 <= k < |cs| => Cleanup(cs[k]));
        SameItems(cleaned, cs);
        n.(children := Present(cleaned))
  }

  /** Node lists that agree item by item have the same item list. */
  lemma {:induction false} SameItems(a: seq<Node>, b: seq<Node>)
    requires |a| == |b|
    requires forall k :: 0 <= k < |a| ==> a[k].item == b[k].item
    ensures Items(a) == Items(b)
    decreases |a|
  {
    if |a| > 0 {
      SameItems(a[..|a| - 1], b[..|b| - 1]);
    }
  }

  /** `cleanupChildren` only deletes empty arrays: the cleaned node holds exactly the items the original did. */
  lemma {:induction false} CleanupSameTree(n: Node, x: Item)
    ensures InTree(Cleanup(n), x) <==> InTree(n, x)
  {
    var c := Cleanup(n);
    match n.children
    case Absent =>
    case Present(cs) =>
      assert Kids(n) == cs;
      if InTree(n, x) && n.item != x {
        var k := InSomeKid(n, x);
        CleanupKid(n, k);
        CleanupSameTree(cs[k], x);
        KidInTree(c, k, x);
      }
      if InTree(c, x) && c.item != x {
        var k := InSomeKid(c, x);
        CleanupKid(n, k);
        CleanupSameTree(cs[k], x);
        KidInTree(n, k, x);
      }
  }

  lemma CleanupKid(n: Node, k: nat)
    requires k < |Kids(n)|
    ensures k < |Kids(Cleanup(n))| && Kids(Cleanup(n))[k] == Cleanup(Kids(n)[k])
  {
  }

  /** The node `buildTree` produces for item `x`. */
  function NodeFor(items: seq<Item>, x: Item): Node
    requires UniqueIds(items) && ParentPathsShorter(items)
    requires x in items
  {
    var m := ItemMap(items);
    var links := Link(items, m);
    RankedFromPaths(items);
    Cleanup(Materialize(m, links.kids, x.id))
  }

  /** The cleaned-up nodes for the given root ids, in order. */
  function Forest(m: map<string, Item>, kids: map<string, seq<string>>, rootIds: seq<string>): (forest: seq<Node>)
    requires Ranked(m, kids)
    requires forall k :: 0 <= k < |rootIds| ==> rootIds[k] in m
    ensures |forest| == |rootIds|
    ensures forall k :: 0 <= k < |rootIds| ==> forest[k].item == m[rootIds[k]] && NoEmptyChildren(forest[k])
  {
    seq(|rootIds|, k requires 0 <= k < |rootIds| => Cleanup(Materialize(m, kids, rootIds[k])))
  }

  /** `buildTree`: the root nodes, in input order, each with its cleaned-up subtree. */
  function BuildTree(items: seq<Item>): (forest: seq<Node>)
    requires UniqueIds(items) && ParentPathsShorter(items)
    ensures Items(forest) == RootItems(items)
    ensures forall k :: 0 <= k < |forest| ==> NoEmptyChildren(forest[k])
  {
    var m := ItemMap(items);
    var links := Link(items, m);
    RankedFromPaths(items);
    RootIdsResolve(items);
    var forest := Forest(m, links.kids, links.roots);
    BuildTreeRootItems(items, links.roots, forest);
    forest
  }

  lemma RootIdsResolve(items: seq<Item>)
    ensures forall k :: 0 <= k < |Ids(RootItems(items))| ==> Ids(RootItems(items))[k] in ItemMap(items)
  {
    FilterMembers(items, IsRootItem);
    IdsAt(RootItems(items));
    forall k | 0 <= k < |RootItems(items)|
      ensures RootItems(items)[k] in items
    {
      assert RootItems(items)[k] in RootItems(items);
    }
  }

  lemma BuildTreeRootItems(items: seq<Item>, rootIds: seq<string>, forest: seq<Node>)
    requires UniqueIds(items)
    requires rootIds == Ids(RootItems(items))
    requires |forest| == |rootIds|
    requires forall k :: 0 <= k < |forest| ==> rootIds[k] in ItemMap(items) && forest[k].item == ItemMap(items)[rootIds[k]]
    ensures Items(forest) == RootItems(items)
  {
    var roots := RootItems(items);
    RootIdsResolve(items);
    ItemMapOfUnique(items);
    FilterMembers(items, IsRootItem);
    IdsAt(roots);
    ItemsAt(forest);
    forall k | 0 <= k < |forest|
      ensures Items(forest)[k] == roots[k]
    {
      assert roots[k] in items;
    }
  }

  // ---------------------------------------------------------------------------
  // Link facts

  /** An id is listed among `p`'s child ids exactly when the item with that id names `p` as parent. */
  lemma ChildIdsMembers(items: seq<Item>, p: string, c: Item)
    requires UniqueIds(items)
    requires c in items
    ensures c.id in Ids(ChildItems(items, p)) <==> ParentId(c.path) == Some(p)
  {
    if c.id in Ids(ChildItems(items, p)) {
      ListedChildNamesParent(items, p, c);
    }
    if ParentId(c.path) == Some(p) {
      ChildIsListed(items, p, c);
    }
  }

  lemma ListedChildNamesParent(items: seq<Item>, p: string, c: Item)
    requires UniqueIds(items)
    requires c in items && c.id in Ids(ChildItems(items, p))
    ensures ParentId(c.path) == Some(p)
  {
    var cs := ChildItems(items, p);
    IdsAt(cs);
    var k :| 0 <= k < |cs| && Ids(cs)[k] == c.id;
    FilteredFrom(items, ChildOf(p), k);
    FilterMembers(items, ChildOf(p));
    assert cs[k] in cs;
    var i :| 0 <= i < |items| && items[i] == cs[k];
    var j :| 0 <= j < |items| && items[j] == c;
  }

  lemma ChildIsListed(items: seq<Item>, p: string, c: Item)
    requires c in items && ParentId(c.path) == Some(p)
    ensures c.id in Ids(ChildItems(items, p))
  {
    var cs := ChildItems(items, p);
    FilterMembers(items, ChildOf(p));
    assert c in cs;
    var k :| 0 <= k < |cs| && cs[k] == c;
    IdsAt(cs);
    assert Ids(cs)[k] == c.id;
  }

  /** The links are exactly the parent relation of the input items. */
  lemma ChildLink(items: seq<Item>, p: Item, c: Item)
    requires UniqueIds(items)
    requires p in items && c in items
    ensures c.id in ChildIds(Link(items, ItemMap(items)).kids, p.id) <==> ParentId(c.path) == Some(p.id)
  {
    assert ChildIds(Link(items, ItemMap(items)).kids, p.id) == Ids(ChildItems(items, p.id));
    ChildIdsMembers(items, p.id, c);
  }

  /** Every listed child id is the id of an item naming `p` as parent. */
  lemma ChildIdsResolve(items: seq<Item>, p: string)
    requires UniqueIds(items)
    ensures forall c :: c in Ids(ChildItems(items, p)) ==> c in ItemMap(items) && ParentId(ItemMap(items)[c].path) == Some(p)
  {
    var cs := ChildItems(items, p);
    FilterMembers(items, ChildOf(p));
    IdsAt(cs);
    ItemMapOfUnique(items);
    forall c | c in Ids(cs)
      ensures c in ItemMap(items) && ParentId(ItemMap(items)[c].path) == Some(p)
    {
      var k :| 0 <= k < |cs| && Ids(cs)[k] == c;
      assert cs[k] in items;
    }
  }

  lemma RankedFromPaths(items: seq<Item>)
    requires UniqueIds(items) && ParentPathsShorter(items)
    ensures Ranked(ItemMap(items), Link(items, ItemMap(items)).kids)
  {
    var m := ItemMap(items);
    var kids := Link(items, m).kids;
    forall p, k | p in m && 0 <= k < |ChildIds(kids, p)|
      ensures ChildIds(kids, p)[k] in m && |m[p].path| < |m[ChildIds(kids, p)[k]].path|
    {
      assert ChildIds(kids, p) == Ids(ChildItems(items, p));
      ChildIdsResolve(items, p);
      var c := ChildIds(kids, p)[k];
      assert c in Ids(ChildItems(items, p));
      var i :| 0 <= i < |items| && items[i] == m[c];
      var j :| 0 <= j < |items| && items[j] == m[p];
    }
  }

  // ---------------------------------------------------------------------------
  // Shape of the result

  /** The forest is, position by position, the node of each root item. */
  lemma BuildTreeRoots(items: seq<Item>)
    requires UniqueIds(items) && ParentPathsShorter(items)
    ensures |BuildTree(items)| == |RootItems(items)|
    ensures forall k :: 0 <= k < |RootItems(items)| ==>
      RootItems(items)[k] in items && BuildTree(items)[k] == NodeFor(items, RootItems(items)[k])
  {
    var roots := RootItems(items);
    FilterMembers(items, IsRootItem);
    IdsAt(roots);
    forall k | 0 <= k < |roots|
      ensures roots[k] in items
    {
      assert roots[k] in roots;
    }
  }

  /** Unfolding a cleaned-up materialized node one level. */
  lemma CleanNodeUnfold(m: map<string, Item>, kids: map<string, seq<string>>, id: string)
    requires Ranked(m, kids) && id in m
    ensures Cleanup(Materialize(m, kids, id)).item == m[id]
    ensures |Kids(Cleanup(Materialize(m, kids, id)))| == |ChildIds(kids, id)|
    ensures Cleanup(Materialize(m, kids, id)).children.Absent? <==> |ChildIds(kids, id)| == 0
    ensures forall k :: 0 <= k < |ChildIds(kids, id)| ==>
      ChildIds(kids, id)[k] in m &&
      Kids(Cleanup(Materialize(m, kids, id)))[k] == Cleanup(Materialize(m, kids, ChildIds(kids, id)[k]))
  {
  }

  /** Every key of the lookup map names an item carrying that key as its id. */
  predicate KeyedById(m: map<string, Item>)
  {
    forall id :: id in m ==> m[id].id == id
  }

  /** Below the level of the input list: if `m[p]` sits under `r`'s cleaned-up node, so does each child id of `p`. */
  lemma {:induction false} CleanTakesChildren(m: map<string, Item>, kids: map<string, seq<string>>, r: string, p: string, c: string)
    requires Ranked(m, kids) && KeyedById(m)
    requires r in m && p in m
    requires InTree(Cleanup(Materialize(m, kids, r)), m[p])
    requires c in ChildIds(kids, p)
    ensures c in m && InTree(Cleanup(Materialize(m, kids, r)), m[c])
    decreases AtOrBelow(m, r)
  {
    var n := Cleanup(Materialize(m, kids, r));
    CleanNodeUnfold(m, kids, r);
    if m[r] == m[p] {
      var j :| 0 <= j < |ChildIds(kids, r)| && ChildIds(kids, r)[j] == c;
      KidInTree(n, j, m[c]);
    } else {
      var k := InSomeKid(n, m[p]);
      var ck := ChildIds(kids, r)[k];
      AtOrBelowShrinks(m, r, ck);
      CleanTakesChildren(m, kids, ck, p, c);
      KidInTree(n, k, m[c]);
    }
  }

  /** Unfolding NodeFor one level: the item itself, and as many children as items naming it as parent. */
  lemma NodeForUnfold(items: seq<Item>, x: Item)
    requires UniqueIds(items) && ParentPathsShorter(items)
    requires x in items
    ensures NodeFor(items, x).item == x
    ensures |Kids(NodeFor(items, x))| == |ChildItems(items, x.id)|
    ensures NodeFor(items, x).children.Absent? <==> |ChildItems(items, x.id)| == 0
  {
    var m := ItemMap(items);
    var kids := Link(items, m).kids;
    RankedFromPaths(items);
    ItemMapOfUnique(items);
    assert ChildIds(kids, x.id) == Ids(ChildItems(items, x.id));
    CleanNodeUnfold(m, kids, x.id);
  }

  /** The k-th child of an item's node is the node of the k-th item naming it as parent. */
  lemma NodeForChild(items: seq<Item>, x: Item, k: nat)
    requires UniqueIds(items) && ParentPathsShorter(items)
    requires x in items && k < |ChildItems(items, x.id)|
    ensures ChildItems(items, x.id)[k] in items
    ensures |Kids(NodeFor(items, x))| == |ChildItems(items, x.id)|
    ensures Kids(NodeFor(items, x))[k] == NodeFor(items, ChildItems(items, x.id)[k])
  {
    var m := ItemMap(items);
    var kids := Link(items, m).kids;
    var cs := ChildItems(items, x.id);
    RankedFromPaths(items);
    FilterMembers(items, ChildOf(x.id));
    assert cs[k] in cs;
    IdsAt(cs);
    assert ChildIds(kids, x.id) == Ids(cs);
    assert ChildIds(kids, x.id)[k] == cs[k].id;
    CleanNodeUnfold(m, kids, x.id);
  }

  /**
   * The node for an item carries that item unchanged; its children are the
   * nodes of exactly the items naming it as parent, in input order; and its
   * `children` field is absent exactly when there are none.
   */
  lemma NodeForShape(items: seq<Item>, x: Item)
    requires UniqueIds(items) && ParentPathsShorter(items)
    requires x in items
    ensures NodeFor(items, x).item == x
    ensures Items(Kids(NodeFor(items, x))) == ChildItems(items, x.id)
    ensures forall k :: 0 <= k < |ChildItems(items, x.id)| ==>
      ChildItems(items, x.id)[k] in items && Kids(NodeFor(items, x))[k] == NodeFor(items, ChildItems(items, x.id)[k])
    ensures NodeFor(items, x).children.Absent? <==> |ChildItems(items, x.id)| == 0
  {
    NodeForUnfold(items, x);
    NodeForKidItems(items, x);
    forall k | 0 <= k < |ChildItems(items, x.id)|
      ensures ChildItems(items, x.id)[k] in items && Kids(NodeFor(items, x))[k] == NodeFor(items, ChildItems(items, x.id)[k])
    {
      NodeForChild(items, x, k);
    }
  }

  lemma NodeForKidItems(items: seq<Item>, x: Item)
    requires UniqueIds(items) && ParentPathsShorter(items)
    requires x in items
    ensures Items(Kids(NodeFor(items, x))) == ChildItems(items, x.id)
  {
    var m := ItemMap(items);
    var kids := Link(items, m).kids;
    RankedFromPaths(items);
    CleanKidItems(m, kids, x.id);
    ChildItemsResolve(items, x.id);
    assert ChildIds(kids, x.id) == Ids(ChildItems(items, x.id));
    LookedUpItems(Items(Kids(NodeFor(items, x))), ChildIds(kids, x.id), ChildItems(items, x.id), m);
  }

  /** Each listed child is an input item, found in the lookup map under its own id. */
  lemma ChildItemsResolve(items: seq<Item>, p: string)
    requires UniqueIds(items)
    ensures forall k :: 0 <= k < |ChildItems(items, p)| ==>
      Ids(ChildItems(items, p))[k] == ChildItems(items, p)[k].id
      && ChildItems(items, p)[k].id in ItemMap(items)
      && ItemMap(items)[ChildItems(items, p)[k].id] == ChildItems(items, p)[k]
  {
    var cs := ChildItems(items, p);
    ItemMapOfUnique(items);
    IdsAt(cs);
    forall k | 0 <= k < |cs|
      ensures cs[k] in items
    {
      FilteredFrom(items, ChildOf(p), k);
    }
  }

  /** Looking up a list of ids that are the ids of `cs`, each mapped to its own item, gives back `cs`. */
  lemma LookedUpItems(its: seq<Item>, ids: seq<string>, cs: seq<Item>, m: map<string, Item>)
    requires |its| == |ids| == |cs|
    requires forall k :: 0 <= k < |ids| ==> ids[k] in m && its[k] == m[ids[k]]
    requires forall k :: 0 <= k < |cs| ==> Ids(cs)[k] == cs[k].id && cs[k].id in m && m[cs[k].id] == cs[k]
    requires ids == Ids(cs)
    ensures its == cs
  {
    assert forall k :: 0 <= k < |cs| ==> its[k] == cs[k];
  }

  /** The items of a cleaned-up node's children are the mapped items of its child ids, in order. */
  lemma CleanKidItems(m: map<string, Item>, kids: map<string, seq<string>>, id: string)
    requires Ranked(m, kids) && id in m
    ensures |Items(Kids(Cleanup(Materialize(m, kids, id))))| == |ChildIds(kids, id)|
    ensures forall k :: 0 <= k < |ChildIds(kids, id)| ==>
      ChildIds(kids, id)[k] in m && Items(Kids(Cleanup(Materialize(m, kids, id))))[k] == m[ChildIds(kids, id)[k]]
  {
    CleanNodeUnfold(m, kids, id);
    ItemsAt(Kids(Cleanup(Materialize(m, kids, id))));
  }

  /** Every item in the subtree of an item's node is that item or an item whose parent is in the list. */
  lemma SubtreeItemsAttached(items: seq<Item>, y: Item, z: Item)
    requires UniqueIds(items) && ParentPathsShorter(items)
    requires y in items
    requires InTree(NodeFor(items, y), z)
    ensures z == y || (z in items && exists w :: w in items && ParentId(z.path) == Some(w.id))
    decreases NodeFor(items, y)
  {
    var n := NodeFor(items, y);
    NodeForShape(items, y);
    InTreeKids(n, z);
    if z != y {
      var cs := ChildItems(items, y.id);
      var k :| 0 <= k < |Kids(n)| && InTree(Kids(n)[k], z);
      var c := cs[k];
      assert Kids(n)[k] == NodeFor(items, c);
      FilterMembers(items, ChildOf(y.id));
      assert c in cs;
      SubtreeItemsAttached(items, c, z);
    }
  }

  /** Everything in the forest sits below some root item's node. */
  lemma InBuildTree(items: seq<Item>, x: Item) returns (r: Item)
    requires UniqueIds(items) && ParentPathsShorter(items)
    requires InForest(BuildTree(items), x)
    ensures r in items && IsRootItem(r) && InTree(NodeFor(items, r), x)
  {
    var forest := BuildTree(items);
    var k :| 0 <= k < |forest| && InTree(forest[k], x);
    BuildTreeRoots(items);
    r := RootItems(items)[k];
    FilterMembers(items, IsRootItem);
    assert r in RootItems(items);
  }

  /**
   * An item whose parent id names no item in the list appears nowhere in the
   * forest: it is silently dropped rather than reported.
   */
  lemma DanglingItemDropped(items: seq<Item>, x: Item)
    requires UniqueIds(items) && ParentPathsShorter(items)
    requires x in items
    requires ParentId(x.path).Some?
    requires forall y :: y in items ==> ParentId(x.path) != Some(y.id)
    ensures !InForest(BuildTree(items), x)
  {
    if InForest(BuildTree(items), x) {
      var r := InBuildTree(items, x);
      SubtreeItemsAttached(items, r, x);
    }
  }
}
