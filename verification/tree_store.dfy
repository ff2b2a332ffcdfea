/**
 * The tree store: the item list, the filtered list shown to the user, the
 * search query and the priority filter, with its transitions as pure steps.
 */
module TreeStore {
  import opened Wrappers
  import opened Seqs
  import opened TreeTypes
  import opened Match
  import opened TreeUtils

  datatype State = State(
    items: seq<Item>,
    filteredItems: seq<Item>,
    searchQuery: string,
    priorityFilter: PriorityFilter)

  // ---------------------------------------------------------------------------
  // The filtered view

  function Accepts(items: seq<Item>, query: string, filter: PriorityFilter): Item -> bool
  {
    (x: Item) => ItemOrDescendantsMatch(x, items, query, filter)
  }

  /** `items.filter(item => itemOrDescendantsMatch(item, items, query, filter))` */
  function FilteredView(items: seq<Item>, query: string, filter: PriorityFilter): (view: seq<Item>)
    ensures IsSubsequence(view, items)
  {
    Filter(items, Accepts(items, query, filter))
  }

  /** The store's invariant: the filtered list is the full filter of the current items. */
  predicate Consistent(s: State)
  {
    s.filteredItems == FilteredView(s.items, s.searchQuery, s.priorityFilter)
  }

  /** With an empty query and the "all" filter the view is the whole list. */
  lemma DefaultViewIsEverything(items: seq<Item>)
    ensures FilteredView(items, "", All) == items
  {
    forall k | 0 <= k < |items|
      ensures Accepts(items, "", All)(items[k])
    {
      DefaultsAcceptEverything(items[k], items);
    }
    FilterKeepsAll(items, Accepts(items, "", All));
  }

  /**
   * The view keeps input order and holds exactly the accepted items; it is
   * closed under ancestors: an item whose path lies above a kept item's path
   * is kept too.
   */
  lemma FilteredViewAncestorClosed(items: seq<Item>, query: string, filter: PriorityFilter, x: Item, a: Item)
    requires x in FilteredView(items, query, filter)
    requires a in items
    requires IsDescendantPath(x.path, a.path)
    ensures a in FilteredView(items, query, filter)
  {
    FilterMembers(items, Accepts(items, query, filter));
    AcceptedPropagatesUp(a, x, items, query, filter);
  }

  /**
   * Filtering by one priority with the empty query: every item carrying that
   * priority is shown, and a shown item carries it or has a listed item below
   * it that does.
   */
  lemma PriorityOnlyView(items: seq<Item>, p: Priority, x: Item)
    ensures x in items && x.priority == p ==> x in FilteredView(items, "", Only(p))
    ensures x in FilteredView(items, "", Only(p)) ==>
      x.priority == p
      || exists k :: 0 <= k < |items| && IsDescendantPath(items[k].path, x.path) && items[k].priority == p
  {
    FilteredViewMembers(items, "", Only(p));
    if x in FilteredView(items, "", Only(p)) && x.priority != p {
      var k :| 0 <= k < |items| && IsDescendantPath(items[k].path, x.path) && DirectMatch(items[k], "", Only(p));
    }
  }

  lemma FilteredViewMembers(items: seq<Item>, query: string, filter: PriorityFilter)
    ensures IsSubsequence(FilteredView(items, query, filter), items)
    ensures forall x :: x in FilteredView(items, query, filter) <==> x in items && ItemOrDescendantsMatch(x, items, query, filter)
  {
    FilterMembers(items, Accepts(items, query, filter));
  }

  // ---------------------------------------------------------------------------
  // Transitions

  /** The initial state over the generated items: everything shown, no query, every priority. */
  function Init(items: seq<Item>): (s: State)
    ensures Consistent(s)
    ensures s.items == items && s.searchQuery == "" && s.priorityFilter == All
  {
    DefaultViewIsEverything(items);
    State(items, items, "", All)
  }

  /**
   * `findAndSetFilteredItems`: the shortcut for the default query and filter
   * gives the same list as the full filter, so the result is always consistent.
   */
  function FindAndSetFilteredItems(s: State): (t: State)
    ensures Consistent(t)
    ensures t.items == s.items && t.searchQuery == s.searchQuery && t.priorityFilter == s.priorityFilter
  {
    if s.searchQuery == "" && s.priorityFilter == All then
      DefaultViewIsEverything(s.items);
      s.(filteredItems := s.items)
    else
      s.(filteredItems := FilteredView(s.items, s.searchQuery, s.priorityFilter))
  }

  /** `setSearchQuery`: only the query changes, then the view is recomputed from the current items. */
  function SetSearchQuery(s: State, query: string): (t: State)
    ensures t.searchQuery == query
    ensures t.items == s.items && t.priorityFilter == s.priorityFilter
    ensures Consistent(t)
  {
    FindAndSetFilteredItems(s.(searchQuery := query))
  }

  /** `setPriorityFilter`: only the filter changes, then the view is recomputed from the current items. */
  function SetPriorityFilter(s: State, filter: PriorityFilter): (t: State)
    ensures t.priorityFilter == filter
    ensures t.items == s.items && t.searchQuery == s.searchQuery
    ensures Consistent(t)
  {
    FindAndSetFilteredItems(s.(priorityFilter := filter))
  }

  /** Two items differ at most in their expanded and hovered flags. */
  predicate SameContent(a: Item, b: Item)
  {
    a.(isExpanded := b.isExpanded, isHovered := b.isHovered) == b
  }

  function ToggleItem(id: string): Item -> Item
  {
    (x: Item) => if x.id == id then x.(isExpanded := !x.isExpanded) else x
  }

  /** The list map of `toggleExpanded`: flips `isExpanded` on every item with the id, touching nothing else. */
  function Toggle(items: seq<Item>, id: string): (r: seq<Item>)
    ensures |r| == |items|
    ensures forall k :: 0 <= k < |items| ==>
      r[k].isExpanded == (items[k].isExpanded != (items[k].id == id))
      && r[k].(isExpanded := items[k].isExpanded) == items[k]
  {
    Map(items, ToggleItem(id))
  }

  /** `toggleExpanded`: the same flip in both lists; query and filter are untouched. */
  function ToggleExpanded(s: State, id: string): (t: State)
    ensures t.items == Toggle(s.items, id) && t.filteredItems == Toggle(s.filteredItems, id)
    ensures t.searchQuery == s.searchQuery && t.priorityFilter == s.priorityFilter
  {
    s.(items := Toggle(s.items, id), filteredItems := Toggle(s.filteredItems, id))
  }

  function HoverItem(id: Option<string>, hovered: bool): Item -> Item
  {
    (x: Item) => if id == Some(x.id) then x.(isHovered := hovered) else x.(isHovered := false)
  }

  /**
   * The list map of `setHovered`: an item is hovered afterwards exactly when
   * it carries the given id and the flag is set; nothing else changes.
   */
  function Hover(items: seq<Item>, id: Option<string>, hovered: bool): (r: seq<Item>)
    ensures |r| == |items|
    ensures forall k :: 0 <= k < |items| ==>
      r[k].isHovered == (hovered && id == Some(items[k].id))
      && r[k].(isHovered := items[k].isHovered) == items[k]
  {
    Map(items, HoverItem(id, hovered))
  }

  /** `setHovered`: the same hover update in both lists; query and filter are untouched. */
  function SetHovered(s: State, id: Option<string>, hovered: bool): (t: State)
    ensures t.items == Hover(s.items, id, hovered) && t.filteredItems == Hover(s.filteredItems, id, hovered)
    ensures t.searchQuery == s.searchQuery && t.priorityFilter == s.priorityFilter
  {
    s.(items := Hover(s.items, id, hovered), filteredItems := Hover(s.filteredItems, id, hovered))
  }

  // ---------------------------------------------------------------------------
  // Properties of the transitions

  /** Toggling the same id twice restores the state. */
  lemma ToggleTwice(s: State, id: string)
    ensures ToggleExpanded(ToggleExpanded(s, id), id) == s
  {
    var t := ToggleExpanded(ToggleExpanded(s, id), id);
    assert t.items == s.items;
    assert t.filteredItems == s.filteredItems;
  }

  /** After `setHovered(null, false)` no item in either list is hovered. */
  lemma HoverNoneClears(s: State)
    ensures forall k :: 0 <= k < |SetHovered(s, None, false).items| ==> !SetHovered(s, None, false).items[k].isHovered
    ensures forall k :: 0 <= k < |SetHovered(s, None, false).filteredItems| ==> !SetHovered(s, None, false).filteredItems[k].isHovered
  {
  }

  /** Hovering is exclusive: afterwards every hovered item carries the given id. */
  lemma HoverExclusive(s: State, id: string, hovered: bool)
    ensures forall k :: 0 <= k < |SetHovered(s, Some(id), hovered).items| ==>
      SetHovered(s, Some(id), hovered).items[k].isHovered ==> SetHovered(s, Some(id), hovered).items[k].id == id
  {
  }

  /** Repeating the same hover update changes nothing more. */
  lemma HoverIdempotent(s: State, id: Option<string>, hovered: bool)
    ensures SetHovered(SetHovered(s, id, hovered), id, hovered) == SetHovered(s, id, hovered)
  {
    var t := SetHovered(s, id, hovered);
    assert SetHovered(t, id, hovered).items == t.items;
    assert SetHovered(t, id, hovered).filteredItems == t.filteredItems;
  }

  /** The flat predicate reads only paths, titles, descriptions and priorities, never the UI flags. */
  lemma AcceptsIgnoresFlags(a: seq<Item>, b: seq<Item>, x: Item, y: Item, query: string, filter: PriorityFilter)
    requires |a| == |b|
    requires forall k :: 0 <= k < |a| ==> SameContent(a[k], b[k])
    requires SameContent(x, y)
    ensures ItemOrDescendantsMatch(x, a, query, filter) == ItemOrDescendantsMatch(y, b, query, filter)
  {
    if ItemOrDescendantsMatch(x, a, query, filter) && !DirectMatch(x, query, filter) {
      var k :| 0 <= k < |a| && IsDescendantPath(a[k].path, x.path) && DirectMatch(a[k], query, filter);
      assert IsDescendantPath(b[k].path, y.path) && DirectMatch(b[k], query, filter);
    }
    if ItemOrDescendantsMatch(y, b, query, filter) && !DirectMatch(y, query, filter) {
      var k :| 0 <= k < |b| && IsDescendantPath(b[k].path, y.path) && DirectMatch(b[k], query, filter);
      assert IsDescendantPath(a[k].path, x.path) && DirectMatch(a[k], query, filter);
    }
  }

  /** Updating the UI flags item by item commutes with the filtered view. */
  lemma FlagUpdateCommutes(items: seq<Item>, f: Item -> Item, query: string, filter: PriorityFilter)
    requires forall x :: SameContent(f(x), x)
    ensures FilteredView(Map(items, f), query, filter) == Map(FilteredView(items, query, filter), f)
  {
    var mapped := Map(items, f);
    forall k | 0 <= k < |items|
      ensures Accepts(mapped, query, filter)(f(items[k])) == Accepts(items, query, filter)(items[k])
    {
      assert SameContent(mapped[k], items[k]);
      AcceptsIgnoresFlags(mapped, items, f(items[k]), items[k], query, filter);
    }
    FilterMap(items, f, Accepts(items, query, filter), Accepts(mapped, query, filter));
  }

  /** `toggleExpanded` keeps the filtered list equal to the full filter of the items. */
  lemma ToggleKeepsConsistent(s: State, id: string)
    requires Consistent(s)
    ensures Consistent(ToggleExpanded(s, id))
  {
    FlagUpdateCommutes(s.items, ToggleItem(id), s.searchQuery, s.priorityFilter);
  }

  /** `setHovered` keeps the filtered list equal to the full filter of the items. */
  lemma HoverKeepsConsistent(s: State, id: Option<string>, hovered: bool)
    requires Consistent(s)
    ensures Consistent(SetHovered(s, id, hovered))
  {
    FlagUpdateCommutes(s.items, HoverItem(id, hovered), s.searchQuery, s.priorityFilter);
  }

  /** The filtered list of a consistent state never shows an item without the ancestors present in the list. */
  lemma ConsistentViewAncestorClosed(s: State, x: Item, a: Item)
    requires Consistent(s)
    requires x in s.filteredItems && a in s.items
    requires IsDescendantPath(x.path, a.path)
    ensures a in s.filteredItems
  {
    FilteredViewAncestorClosed(s.items, s.searchQuery, s.priorityFilter, x, a);
  }
}
