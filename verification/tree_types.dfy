/** The item and node records shared by the store, the tree builder and both filters. */
module TreeTypes {

  datatype Priority = Low | Medium | High

  /** The store's `"all" | Priority` filter value. */
  datatype PriorityFilter = All | Only(priority: Priority)

  /**
   * A flat, path-addressed item. `path` is the slash-joined chain of ids from
   * the root ancestor down to the item itself, e.g. "12/12-1/12-1-2".
   */
  datatype Item = Item(
    id: string,
    title: string,
    description: string,
    isLeaf: bool,
    priority: Priority,
    path: string,
    isExpanded: bool,
    isHovered: bool)

  /** A node's optional `children` array: absent, or present (possibly empty). */
  datatype Children = Absent | Present(nodes: seq<Node>)

  /** An item together with its resolved child nodes. */
  datatype Node = Node(item: Item, children: Children)

  /** The child nodes, treating an absent array like an empty one. */
  function Kids(n: Node): seq<Node>
  {
    match n.children
    case Absent => []
    case Present(cs) => cs
  }

  /** The items of a list of nodes, in order. */
  function Items(ns: seq<Node>): (r: seq<Item>)
    ensures |r| == |ns|
  {
    if |ns| == 0 then [] else Items(ns[..|ns| - 1]) + [ns[|ns| - 1].item]
  }

  lemma {:induction false} ItemsAt(ns: seq<Node>)
    ensures forall k :: 0 <= k < |ns| ==> Items(ns)[k] == ns[k].item
    decreases |ns|
  {
    if |ns| > 0 {
      ItemsAt(ns[..|ns| - 1]);
    }
  }

  /** The ids of a list of items, in order. */
  function Ids(items: seq<Item>): (r: seq<string>)
    ensures |r| == |items|
  {
    if |items| == 0 then [] else Ids(items[..|items| - 1]) + [items[|items| - 1].id]
  }

  lemma {:induction false} IdsAt(items: seq<Item>)
    ensures forall k :: 0 <= k < |items| ==> Ids(items)[k] == items[k].id
    decreases |items|
  {
    if |items| > 0 {
      IdsAt(items[..|items| - 1]);
    }
  }

  /** `x` is the item of `n` or of some node below it. */
  predicate InTree(n: Node, x: Item)
  {
    n.item == x
    || match n.children
       case Absent => false
       case Present(cs) => exists k :: 0 <= k < |cs| && InTree(cs[k], x)
  }

  predicate InForest(ns: seq<Node>, x: Item)
  {
    exists k :: 0 <= k < |ns| && InTree(ns[k], x)
  }

  /** InTree in terms of Kids, so that absent and empty children read alike. */
  lemma InTreeKids(n: Node, x: Item)
    ensures InTree(n, x) <==> n.item == x || exists k :: 0 <= k < |Kids(n)| && InTree(Kids(n)[k], x)
  {
    match n.children
    case Absent =>
    case Present(cs) => assert Kids(n) == cs;
  }

  /** Something below `n` other than its own item lies under one of its children. */
  lemma InSomeKid(n: Node, x: Item) returns (k: nat)
    requires InTree(n, x) && n.item != x
    ensures k < |Kids(n)| && InTree(Kids(n)[k], x)
  {
    InTreeKids(n, x);
    k :| 0 <= k < |Kids(n)| && InTree(Kids(n)[k], x);
  }

  /** Whatever lies under a child of `n` lies under `n`. */
  lemma KidInTree(n: Node, k: nat, x: Item)
    requires k < |Kids(n)| && InTree(Kids(n)[k], x)
    ensures InTree(n, x)
  {
    InTreeKids(n, x);
  }
}
