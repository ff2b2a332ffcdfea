/**
 * The deterministic sample-data generator: root item `r` gets one of seven
 * structure templates (`r % 7`), a priority cycling with `r % 3`, and children
 * whose ids extend the root id with `-` and whose paths extend the parent's
 * path with `/`. Titles and descriptions are abstracted as functions of the id.
 */
module SampleData {
  import opened Strings
  import opened TreeTypes
  import opened TreeUtils

  datatype Template =
    | Leaf
    | Depth2(childCount: nat)
    | Depth3(branchCount: nat, leafCount: nat)

  const Templates: seq<Template> :=
    [Leaf, Depth2(2), Depth2(3), Depth2(4), Depth3(2, 1), Depth3(1, 2), Depth3(2, 2)]

  const Priorities: seq<Priority> := [Low, Medium, High]

  /** Every branch of a depth-3 template gets this many grandchildren. */
  const GrandchildCount: nat := 2

  /** The display texts of an item, looked up by its id. */
  datatype Labels = Labels(title: string -> string, description: string -> string)

  function TemplateOf(r: nat): Template
  {
    Templates[r % |Templates|]
  }

  /** `priorities[k % 3]` */
  function PriorityAt(k: nat): Priority
  {
    Priorities[k % 3]
  }

  function MakeItem(id: string, path: string, isLeaf: bool, priority: Priority, labels: Labels): Item
  {
    Item(id, labels.title(id), labels.description(id), isLeaf, priority, path, false, false)
  }

  /** `String(n)` */
  function S(n: nat): string
  {
    NatToString(n)
  }

  function RootItem(r: nat, labels: Labels): Item
  {
    MakeItem(S(r), S(r), TemplateOf(r).Leaf?, PriorityAt(r % 3), labels)
  }

  /** A leaf directly under the root: a depth-2 child, or a depth-3 template's trailing leaf. */
  function LeafChild(r: nat, c: nat, labels: Labels): Item
  {
    var id := S(r) + "-" + S(c);
    MakeItem(id, S(r) + "/" + id, true, PriorityAt(r % 3 + c), labels)
  }

  function BranchItem(r: nat, c: nat, labels: Labels): Item
  {
    var id := S(r) + "-" + S(c);
    MakeItem(id, S(r) + "/" + id, false, PriorityAt(r % 3 + c), labels)
  }

  function Grandchild(r: nat, c: nat, j: nat, labels: Labels): Item
  {
    var branchId := S(r) + "-" + S(c);
    var id := S(r) + "-" + S(c) + "-" + S(j);
    MakeItem(id, S(r) + "/" + branchId + "/" + id, true, PriorityAt(r % 3 + c + j), labels)
  }

  /** Leaf children with child indices `first + 1 .. first + n`, in order. */
  function LeafChildren(r: nat, first: nat, n: nat, labels: Labels): (items: seq<Item>)
    ensures |items| == n
  {
    if n == 0 then [] else LeafChildren(r, first, n - 1, labels) + [LeafChild(r, first + n, labels)]
  }

  /** Grandchildren `1 .. n` of branch `c`, in order. */
  function Grandchildren(r: nat, c: nat, n: nat, labels: Labels): (items: seq<Item>)
    ensures |items| == n
  {
    if n == 0 then [] else Grandchildren(r, c, n - 1, labels) + [Grandchild(r, c, n, labels)]
  }

  /** Branches `1 .. n`, each followed by its grandchildren: blocks of `1 + GrandchildCount` = 3 items. */
  function Branches(r: nat, n: nat, labels: Labels): (items: seq<Item>)
    ensures |items| == 3 * n
  {
    if n == 0 then []
    else Branches(r, n - 1, labels) + [BranchItem(r, n, labels)] + Grandchildren(r, n, GrandchildCount, labels)
  }

  /** `generateRootItem(r)`: the root item followed by the items its template prescribes. */
  function GenerateRootItem(r: nat, labels: Labels): (items: seq<Item>)
    ensures |items| >= 1 && items[0] == RootItem(r, labels)
  {
    [RootItem(r, labels)] +
      match TemplateOf(r)
      case Leaf => []
      case Depth2(count) => LeafChildren(r, 0, count, labels)
      case Depth3(branchCount, leafCount) =>
        Branches(r, branchCount, labels) + LeafChildren(r, branchCount, leafCount, labels)
  }

  /** The roots `1 .. n`, each followed by its descendants. */
  function GenerateRoots(n: nat, labels: Labels): (items: seq<Item>)
    ensures n > 0 ==> |items| > 0
  {
    if n == 0 then [] else GenerateRoots(n - 1, labels) + GenerateRootItem(n, labels)
  }

  /** `generateAllData`: root items 1 to 200 with their children. */
  function GenerateAllData(labels: Labels): (items: seq<Item>)
    ensures |items| >= 200 && items[0] == RootItem(1, labels)
  {
    GenerateRootsHead(200, labels);
    GenerateRootsLength(200, labels);
    GenerateRoots(200, labels)
  }

  // ---------------------------------------------------------------------------
  // Properties of one root's block

  /** The number of items a template produces, the root included. */
  function TemplateSize(t: Template): nat
  {
    match t
    case Leaf => 1
    case Depth2(count) => 1 + count
    case Depth3(branchCount, leafCount) => 1 + 3 * branchCount + leafCount
  }

  lemma GenerateRootItemCount(r: nat, labels: Labels)
    ensures |GenerateRootItem(r, labels)| == TemplateSize(TemplateOf(r))
  {
  }

  /** The block starts with a root whose id and path are both `String(r)`, and whose leaf flag says it has no children. */
  lemma GenerateRootItemRoot(r: nat, labels: Labels)
    ensures GenerateRootItem(r, labels)[0].id == S(r)
    ensures GenerateRootItem(r, labels)[0].path == S(r)
    ensures IsRootPath(GenerateRootItem(r, labels)[0].path)
    ensures GenerateRootItem(r, labels)[0].isLeaf <==> |GenerateRootItem(r, labels)| == 1
    ensures GenerateRootItem(r, labels)[0].priority == Priorities[r % 3]
  {
    RootPathHasNoSlash(S(r));
    var t := TemplateOf(r);
    assert t in Templates;
    assert |GenerateRootItem(r, labels)| == TemplateSize(t);
  }

  /** Depth-2 child `i` sits at position `i` and has priority `priorities[(r % 3 + i) % 3]`. */
  lemma Depth2ChildPriority(r: nat, labels: Labels, i: nat)
    requires TemplateOf(r).Depth2?
    requires 1 <= i <= TemplateOf(r).childCount
    ensures GenerateRootItem(r, labels)[i].id == S(r) + "-" + S(i)
    ensures GenerateRootItem(r, labels)[i].priority == Priorities[(r % 3 + i) % 3]
    ensures GenerateRootItem(r, labels)[i].isLeaf
  {
    LeafChildrenAt(r, 0, TemplateOf(r).childCount, labels, i - 1);
  }

  lemma {:induction false} LeafChildrenAt(r: nat, first: nat, n: nat, labels: Labels, k: nat)
    requires k < n
    ensures LeafChildren(r, first, n, labels)[k] == LeafChild(r, first + k + 1, labels)
    decreases n
  {
    if k < n - 1 {
      LeafChildrenAt(r, first, n - 1, labels, k);
    }
  }

  lemma {:induction false} GrandchildrenAt(r: nat, c: nat, n: nat, labels: Labels, k: nat)
    requires k < n
    ensures Grandchildren(r, c, n, labels)[k] == Grandchild(r, c, k + 1, labels)
    decreases n
  {
    if k < n - 1 {
      GrandchildrenAt(r, c, n - 1, labels, k);
    }
  }

  /** Branch `c`'s block: the branch at offset 0, then its grandchildren. */
  lemma {:induction false} BranchesAt(r: nat, n: nat, labels: Labels, c: nat, j: nat)
    requires 1 <= c <= n && j <= GrandchildCount
    ensures Branches(r, n, labels)[(c - 1) * 3 + j] ==
      if j == 0 then BranchItem(r, c, labels) else Grandchild(r, c, j, labels)
    decreases n
  {
    if c < n {
      BranchesFront(r, n, labels, (c - 1) * 3 + j);
      BranchesAt(r, n - 1, labels, c, j);
    } else {
      BranchesLast(r, n, labels, j);
    }
  }

  /** Adding branch `n` leaves the earlier blocks in place. */
  lemma BranchesFront(r: nat, n: nat, labels: Labels, i: nat)
    requires n > 0 && i < 3 * (n - 1)
    ensures Branches(r, n, labels)[i] == Branches(r, n - 1, labels)[i]
  {
    FrontAt(Branches(r, n - 1, labels), [BranchItem(r, n, labels)], Grandchildren(r, n, GrandchildCount, labels), i);
  }

  /** The last block: branch `n`, then its grandchildren. */
  lemma BranchesLast(r: nat, n: nat, labels: Labels, j: nat)
    requires n > 0 && j <= GrandchildCount
    ensures Branches(r, n, labels)[3 * (n - 1) + j] ==
      if j == 0 then BranchItem(r, n, labels) else Grandchild(r, n, j, labels)
  {
    var front := Branches(r, n - 1, labels);
    var grand := Grandchildren(r, n, GrandchildCount, labels);
    BackAt(front, [BranchItem(r, n, labels)] + grand, j);
    assert front + [BranchItem(r, n, labels)] + grand == front + ([BranchItem(r, n, labels)] + grand);
    if j > 0 {
      GrandchildrenAt(r, n, GrandchildCount, labels, j - 1);
    }
  }

  lemma FrontAt(a: seq<Item>, b: seq<Item>, c: seq<Item>, i: nat)
    requires i < |a|
    ensures (a + b + c)[i] == a[i]
  {
  }

  lemma BackAt(a: seq<Item>, b: seq<Item>, j: nat)
    requires j < |b|
    ensures (a + b)[|a| + j] == b[j]
  {
  }

  /** Every root contributes at least its own item. */
  lemma {:induction false} GenerateRootsLength(n: nat, labels: Labels)
    ensures |GenerateRoots(n, labels)| >= n
    decreases n
  {
    if n > 0 {
      GenerateRootsLength(n - 1, labels);
    }
  }

  /** `generateAllData` starts with root 1, whose block is emitted first. */
  lemma {:induction false} GenerateRootsHead(n: nat, labels: Labels)
    requires n > 0
    ensures |GenerateRoots(n, labels)| > 0 && GenerateRoots(n, labels)[0] == RootItem(1, labels)
    decreases n
  {
    if n > 1 {
      GenerateRootsHead(n - 1, labels);
    }
  }
}
