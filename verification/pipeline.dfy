/**
 * The app's pipeline: the store keeps the filtered view of the generated
 * items, and the document view builds its tree from that filtered list. The
 * filtered view of a list that follows the path convention follows it too,
 * because it is closed under ancestors; so the tree built from it shows every
 * filtered item and nothing else.
 */
module Pipeline {
  import opened Wrappers
  import opened Seqs
  import opened TreeTypes
  import opened TreeUtils
  import opened BuildTree
  import opened BuildTreePaths
  import opened TreeStore
  import opened SampleData
  import opened SamplePaths

  /** The filtered view keeps ids unique. */
  lemma ViewUniqueIds(items: seq<Item>, query: string, filter: PriorityFilter)
    requires UniqueIds(items)
    ensures UniqueIds(FilteredView(items, query, filter))
  {
    FilterDistinctKeys(items, Accepts(items, query, filter), (x: Item) => x.id);
  }

  /** The filtered view of a list that follows the path convention follows it too. */
  lemma ViewWellFormed(items: seq<Item>, query: string, filter: PriorityFilter)
    requires PathsWellFormed(items)
    ensures PathsWellFormed(FilteredView(items, query, filter))
  {
    var view := FilteredView(items, query, filter);
    ViewUniqueIds(items, query, filter);
    FilteredViewMembers(items, query, filter);
    forall i | 0 <= i < |view|
      ensures LastSegment(view[i].path) == view[i].id
    {
      assert view[i] in items;
      var a :| 0 <= a < |items| && items[a] == view[i];
    }
    forall i, j | 0 <= i < |view| && 0 <= j < |view| && ParentId(view[i].path) == Some(view[j].id)
      ensures view[i].path == view[j].path + "/" + view[i].id
    {
      assert view[i] in items && view[j] in items;
      var a :| 0 <= a < |items| && items[a] == view[i];
      var b :| 0 <= b < |items| && items[b] == view[j];
    }
  }

  /** The filtered view has no dangling parents when the full list has none. */
  lemma ViewParentsPresent(items: seq<Item>, query: string, filter: PriorityFilter)
    requires PathsWellFormed(items) && ParentsPresent(items)
    ensures ParentsPresent(FilteredView(items, query, filter))
  {
    var view := FilteredView(items, query, filter);
    forall i | 0 <= i < |view| && ParentId(view[i].path).Some?
      ensures exists j :: 0 <= j < |view| && ParentId(view[i].path) == Some(view[j].id)
    {
      var p := ViewParent(items, query, filter, view[i]);
      var j :| 0 <= j < |view| && view[j] == p;
    }
  }

  /** A shown item's parent is shown too. */
  lemma ViewParent(items: seq<Item>, query: string, filter: PriorityFilter, x: Item) returns (p: Item)
    requires PathsWellFormed(items) && ParentsPresent(items)
    requires x in FilteredView(items, query, filter) && ParentId(x.path).Some?
    ensures p in FilteredView(items, query, filter) && ParentId(x.path) == Some(p.id)
  {
    FilteredViewMembers(items, query, filter);
    p := ParentItem(items, x);
    assert IsDescendantPath(x.path, p.path) by {
      assert x.path[..|p.path + "/"|] == p.path + "/";
    }
    FilteredViewAncestorClosed(items, query, filter, x, p);
  }

  /**
   * `buildTree(filteredItems)` in the document view: on a list that follows
   * the path convention without dangling parents, the forest holds exactly
   * the filtered items.
   */
  function DocumentTree(items: seq<Item>, query: string, filter: PriorityFilter): (forest: seq<Node>)
    requires PathsWellFormed(items) && ParentsPresent(items)
    ensures forall x :: InForest(forest, x) <==> x in FilteredView(items, query, filter)
  {
    var view := FilteredView(items, query, filter);
    ViewWellFormed(items, query, filter);
    ViewParentsPresent(items, query, filter);
    WellFormedIsAcyclic(view);
    var forest := BuildTree.BuildTree(view);
    assert forall x :: InForest(forest, x) <==> x in view by {
      forall x | x in view
        ensures InForest(forest, x)
      {
        EveryItemPlaced(view, x);
      }
      forall x | InForest(forest, x)
        ensures x in view
      {
        var r := InBuildTree(view, x);
        SubtreeBelow(view, r, x);
      }
    }
    forest
  }

  /** The generated data meets the tree builder's conditions, so its document tree shows exactly the filtered items. */
  function GeneratedDocumentTree(n: nat, labels: Labels, query: string, filter: PriorityFilter): (forest: seq<Node>)
    ensures forall x :: InForest(forest, x) <==> x in FilteredView(GenerateRoots(n, labels), query, filter)
  {
    GeneratedWellFormed(n, labels);
    DocumentTree(GenerateRoots(n, labels), query, filter)
  }

  /**
   * The store as created: `Init` over `createLargeSampleData()`. It shows all
   * 200 root blocks, and its items follow the path convention with every
   * parent present, so the document tree places all of them.
   */
  function InitialStore(labels: Labels): (s: State)
    ensures s.items == GenerateAllData(labels) && s.filteredItems == s.items
    ensures s.searchQuery == "" && s.priorityFilter == All && Consistent(s)
    ensures PathsWellFormed(s.items) && ParentsPresent(s.items)
  {
    GeneratedWellFormed(200, labels);
    Init(GenerateAllData(labels))
  }
}
