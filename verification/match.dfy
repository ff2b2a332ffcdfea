/** The direct-match test an item must pass on its own fields: text search and priority. */
module Match {
  import opened Strings
  import opened TreeTypes

  /** An empty query matches everything; otherwise the lowered query must occur in the lowered title or description. */
  function MatchesSearch(item: Item, query: string): (b: bool)
    ensures query == "" ==> b
    ensures Lower(query) == Lower(item.title) || Lower(query) == Lower(item.description) ==> b
    ensures b ==> query == "" || |query| <= |item.title| || |query| <= |item.description|
  {
    assert OccursAt(Lower(item.title), Lower(item.title), 0);
    assert OccursAt(Lower(item.description), Lower(item.description), 0);
    query == ""
    || Includes(Lower(item.title), Lower(query))
    || Includes(Lower(item.description), Lower(query))
  }

  /** `"all"` accepts every item; a named priority accepts exactly the items carrying it. */
  function MatchesPriority(item: Item, filter: PriorityFilter): (b: bool)
    ensures filter == All ==> b
    ensures filter.Only? ==> (b <==> item.priority == filter.priority)
  {
    filter == All || filter == Only(item.priority)
  }

  /** Both tests at once: the query hits a field and the priority passes the filter. */
  function DirectMatch(item: Item, query: string, filter: PriorityFilter): (b: bool)
    ensures query == "" && filter == All ==> b
    ensures b ==> query == "" || |query| <= |item.title| || |query| <= |item.description|
    ensures b && filter.Only? ==> item.priority == filter.priority
  {
    MatchesSearch(item, query) && MatchesPriority(item, filter)
  }

  /** With the default query and filter, every item matches directly. */
  lemma DefaultsMatchEverything(item: Item)
    ensures DirectMatch(item, "", All)
  {
  }

  /**
   * Search ignores case: queries that lower to the same string match the same items,
   * and a query matches exactly when its lowered form occurs in a lowered field.
   */
  lemma SearchIgnoresCase(item: Item, q1: string, q2: string)
    requires Lower(q1) == Lower(q2)
    ensures MatchesSearch(item, q1) == MatchesSearch(item, q2)
  {
    assert |q1| == |Lower(q1)| == |Lower(q2)| == |q2|;
  }

  /** Title and description are searched independently: a hit in either one is enough. */
  lemma SearchEitherField(item: Item, query: string)
    requires query != ""
    ensures MatchesSearch(item, query) <==>
      (exists i :: OccursAt(Lower(item.title), Lower(query), i))
      || (exists i :: OccursAt(Lower(item.description), Lower(query), i))
  {
  }

  /** The upper-case query "ALPHA" finds an item titled "alpha test". */
  lemma UpperCaseQueryFindsLowerCaseTitle(item: Item)
    requires item.title == "alpha test"
    ensures MatchesSearch(item, "ALPHA")
  {
    assert Lower("ALPHA") == "alpha";
    assert Lower("alpha test") == "alpha test";
    assert OccursAt(Lower(item.title), Lower("ALPHA"), 0);
  }
}
