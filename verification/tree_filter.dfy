/**
 * The tree-based alternative to the flat filter: keep, in order, the nodes of
 * a forest that match directly or have some child that is kept by the same
 * filter one level down. Kept nodes are returned whole.
 */
module TreeFilter {
  import opened Strings
  import opened Seqs
  import opened TreeTypes
  import opened Match
  import opened TreeUtils
  import opened BuildTree
  import opened BuildTreePaths

  /** `itemOrDescendantsMatch(nodes, query, filter)`: `nodes.filter(keep)`, kept nodes unchanged. */
  function FilterNodes(ns: seq<Node>, query: string, filter: PriorityFilter): (kept: seq<Node>)
    ensures |kept| <= |ns|
  {
    if |ns| == 0 then []
    else
      var init := FilterNodes(ns[..|ns| - 1], query, filter);
      var last := ns[|ns| - 1];
      if Keep(last, query, filter) then init + [last] else init
  }

  /**
   * The callback of the filter: the node matches itself, or filtering its
   * children (none when the array is absent) leaves something.
   */
  function Keep(n: Node, query: string, filter: PriorityFilter): (b: bool)
    ensures DirectMatch(n.item, query, filter) ==> b
    ensures b ==> DirectMatch(n.item, query, filter) || |Kids(n)| > 0
  {
    var matchedChildren := match n.children
      case Absent => []
      case Present(cs) => FilterNodes(cs, query, filter);
    DirectMatch(n.item, query, filter) || |matchedChildren| > 0
  }

  /** Reference definition: some item in the node's subtree, the node's own included, matches directly. */
  ghost predicate SubtreeMatch(n: Node, query: string, filter: PriorityFilter)
  {
    exists x :: InTree(n, x) && DirectMatch(x, query, filter)
  }

  function KeepFn(query: string, filter: PriorityFilter): Node -> bool
  {
    (n: Node) => Keep(n, query, filter)
  }

  /** The recursion is `Array.prototype.filter` with Keep as its callback. */
  lemma {:induction false} FilterNodesIsFilter(ns: seq<Node>, query: string, filter: PriorityFilter)
    ensures FilterNodes(ns, query, filter) == Filter(ns, KeepFn(query, filter))
    decreases |ns|
  {
    if |ns| > 0 {
      FilterNodesIsFilter(ns[..|ns| - 1], query, filter);
    }
  }

  /**
   * The result is an order-preserving subsequence of the input, made of input
   * nodes returned as they are (children not pruned), holding exactly the
   * nodes Keep accepts.
   */
  lemma FilterNodesMembers(ns: seq<Node>, query: string, filter: PriorityFilter)
    ensures IsSubsequence(FilterNodes(ns, query, filter), ns)
    ensures forall n :: n in FilterNodes(ns, query, filter) <==> n in ns && Keep(n, query, filter)
  {
    FilterNodesIsFilter(ns, query, filter);
    FilterMembers(ns, KeepFn(query, filter));
  }

  /** Filtering leaves something exactly when some node is kept. */
  lemma FilterNodesNonEmpty(ns: seq<Node>, query: string, filter: PriorityFilter)
    ensures |FilterNodes(ns, query, filter)| > 0 <==> exists k :: 0 <= k < |ns| && Keep(ns[k], query, filter)
  {
    FilterNodesMembers(ns, query, filter);
    var kept := FilterNodes(ns, query, filter);
    if |kept| > 0 {
      assert kept[0] in kept;
    }
    if exists k :: 0 <= k < |ns| && Keep(ns[k], query, filter) {
      var k :| 0 <= k < |ns| && Keep(ns[k], query, filter);
      assert ns[k] in kept;
    }
  }

  /** A node whose `children` is absent is kept exactly when the same node with an empty array would be. */
  lemma AbsentLikeEmpty(n: Node, query: string, filter: PriorityFilter)
    requires n.children.Absent?
    ensures Keep(n, query, filter) <==> Keep(n.(children := Present([])), query, filter)
  {
  }

  /** Keep in terms of Kids: a direct match, or some kept child. */
  lemma KeepUnfold(n: Node, query: string, filter: PriorityFilter)
    ensures Keep(n, query, filter) <==>
      DirectMatch(n.item, query, filter) || exists k :: 0 <= k < |Kids(n)| && Keep(Kids(n)[k], query, filter)
  {
    FilterNodesNonEmpty(Kids(n), query, filter);
  }

  /** A node is kept exactly when some item in its subtree, itself included, matches directly. */
  lemma {:induction false} KeepIffSubtreeMatch(n: Node, query: string, filter: PriorityFilter)
    ensures Keep(n, query, filter) <==> SubtreeMatch(n, query, filter)
    decreases n
  {
    KeepUnfold(n, query, filter);
    forall k | 0 <= k < |Kids(n)|
      ensures Keep(Kids(n)[k], query, filter) <==> SubtreeMatch(Kids(n)[k], query, filter)
    {
      KeepIffSubtreeMatch(Kids(n)[k], query, filter);
    }
    if SubtreeMatch(n, query, filter) {
      var x :| InTree(n, x) && DirectMatch(x, query, filter);
      InTreeKids(n, x);
    }
    if Keep(n, query, filter) && !DirectMatch(n.item, query, filter) {
      var k :| 0 <= k < |Kids(n)| && Keep(Kids(n)[k], query, filter);
      var x :| InTree(Kids(n)[k], x) && DirectMatch(x, query, filter);
      InTreeKids(n, x);
    }
  }

  /** The filtered forest holds exactly the input nodes with a direct match somewhere in their subtree. */
  lemma FilterNodesSpec(ns: seq<Node>, query: string, filter: PriorityFilter)
    ensures forall n :: n in FilterNodes(ns, query, filter) <==> n in ns && SubtreeMatch(n, query, filter)
  {
    FilterNodesMembers(ns, query, filter);
    forall n | n in ns
      ensures Keep(n, query, filter) <==> SubtreeMatch(n, query, filter)
    {
      KeepIffSubtreeMatch(n, query, filter);
    }
  }

  /** With an empty query and the "all" filter, every node is kept and the forest comes back unchanged. */
  lemma {:induction false} DefaultsKeepAll(ns: seq<Node>)
    ensures FilterNodes(ns, "", All) == ns
    decreases |ns|
  {
    if |ns| > 0 {
      DefaultsKeepAll(ns[..|ns| - 1]);
      DefaultsMatchEverything(ns[|ns| - 1].item);
    }
  }

  /**
   * On the forest `buildTree` makes from a well-formed list without dangling
   * parents, the tree filter keeps a root exactly when the flat predicate
   * accepts its item.
   */
  lemma TreeFilterAgreesWithFlat(items: seq<Item>, query: string, filter: PriorityFilter, k: nat)
    requires PathsWellFormed(items) && ParentsPresent(items)
    requires k < |(WellFormedIsAcyclic(items); BuildTree.BuildTree(items))|
    ensures Keep(BuildTree.BuildTree(items)[k], query, filter) <==>
      ItemOrDescendantsMatch(BuildTree.BuildTree(items)[k].item, items, query, filter)
  {
    WellFormedIsAcyclic(items);
    BuildTreeRoots(items);
    var r := RootItems(items)[k];
    KeepAgreesWithFlat(items, r, query, filter);
  }

  /** For any item's node, the tree filter keeps it exactly when the flat predicate accepts the item. */
  lemma KeepAgreesWithFlat(items: seq<Item>, r: Item, query: string, filter: PriorityFilter)
    requires PathsWellFormed(items) && ParentsPresent(items)
    requires r in items
    ensures Keep((WellFormedIsAcyclic(items); NodeFor(items, r)), query, filter) <==>
      ItemOrDescendantsMatch(r, items, query, filter)
  {
    WellFormedIsAcyclic(items);
    KeepIffSubtreeMatch(NodeFor(items, r), query, filter);
    if SubtreeMatch(NodeFor(items, r), query, filter) {
      SubtreeMatchIsFlat(items, r, query, filter);
    }
    if ItemOrDescendantsMatch(r, items, query, filter) {
      FlatIsSubtreeMatch(items, r, query, filter);
    }
  }

  lemma SubtreeMatchIsFlat(items: seq<Item>, r: Item, query: string, filter: PriorityFilter)
    requires PathsWellFormed(items) && ParentsPresent(items)
    requires r in items
    requires SubtreeMatch((WellFormedIsAcyclic(items); NodeFor(items, r)), query, filter)
    ensures ItemOrDescendantsMatch(r, items, query, filter)
  {
    WellFormedIsAcyclic(items);
    var x :| InTree(NodeFor(items, r), x) && DirectMatch(x, query, filter);
    SubtreeIsPathPrefix(items, r, x);
    if x != r {
      var j :| 0 <= j < |items| && items[j] == x;
    }
  }

  lemma FlatIsSubtreeMatch(items: seq<Item>, r: Item, query: string, filter: PriorityFilter)
    requires PathsWellFormed(items) && ParentsPresent(items)
    requires r in items
    requires ItemOrDescendantsMatch(r, items, query, filter)
    ensures SubtreeMatch((WellFormedIsAcyclic(items); NodeFor(items, r)), query, filter)
  {
    WellFormedIsAcyclic(items);
    if DirectMatch(r, query, filter) {
      NodeForUnfold(items, r);
      assert InTree(NodeFor(items, r), r);
    } else {
      var j :| 0 <= j < |items| && IsDescendantPath(items[j].path, r.path) && DirectMatch(items[j], query, filter);
      SubtreeIsPathPrefix(items, r, items[j]);
    }
  }

  /** The same agreement stated on the whole forest: the kept roots are those whose item the flat predicate accepts. */
  lemma TreeFilterKeepsFlatMatches(items: seq<Item>, query: string, filter: PriorityFilter)
    requires PathsWellFormed(items) && ParentsPresent(items)
    ensures forall n :: n in FilterNodes((WellFormedIsAcyclic(items); BuildTree.BuildTree(items)), query, filter) <==>
      n in BuildTree.BuildTree(items) && ItemOrDescendantsMatch(n.item, items, query, filter)
  {
    WellFormedIsAcyclic(items);
    var forest := BuildTree.BuildTree(items);
    FilterNodesMembers(forest, query, filter);
    forall n | n in forest
      ensures Keep(n, query, filter) <==> ItemOrDescendantsMatch(n.item, items, query, filter)
    {
      var k :| 0 <= k < |forest| && forest[k] == n;
      TreeFilterAgreesWithFlat(items, query, filter, k);
    }
  }
}
