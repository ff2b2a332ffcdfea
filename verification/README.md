# Tree store, tree builder and sample data — a Dafny model

This project models the logic behind a small React demo that shows a large
document outline. The outline is a flat list of path-addressed items: an item
with path `"3/3-2/3-2-1"` sits under `"3-2"`, which sits under the root `"3"`.
The app works as a pipeline over that list:

- a deterministic generator produces 200 root blocks (`generateRootItem`, `generateAllData`);
- `getRootItemRange` slices the first few root blocks off that list;
- a store keeps the item list, a search query, a priority filter and the filtered list;
- its transitions toggle expansion, set hover, change the query or filter and recompute the filtered list;
- the flat predicate `itemOrDescendantsMatch` decides which items the filtered list keeps: an item matches, or some item below it does;
- `buildTree` turns a flat list into a forest, linking each item to the item its second-to-last path segment names;
- an alternative tree-based filter (`react18/.../itemOrDescendantsMatch`) prunes a forest directly.

Everything is modelled as pure functions on immutable datatypes:

| file | module | what it holds |
|---|---|---|
| `tree_types.dfy` | `TreeTypes` | `Item`, `Priority`, `PriorityFilter`, `Node` with optional children, subtree membership |
| `strings.dfy` | `Strings` | `split`/`join`, `includes`, ASCII lowering, decimal `String(n)` |
| `seqs.dfy` | `Seqs` | `Array.prototype.filter`, `some` and `map` on sequences |
| `match.dfy` | `Match` | the direct-match test on title, description and priority |
| `tree_utils.dfy` | `TreeUtils` | `getDepth`, `getAncestorIds`, path helpers, the flat `itemOrDescendantsMatch` |
| `build_tree.dfy` | `BuildTree` | `buildTree`: id map, links, materialised nodes, `cleanupChildren` |
| `build_tree_paths.dfy` | `BuildTreePaths` | the forest's shape on lists that follow the path convention |
| `tree_filter.dfy` | `TreeFilter` | the tree-based filter and its agreement with the flat one |
| `tree_store.dfy` | `TreeStore` | the store state and its transitions |
| `sample_data.dfy` | `SampleData` | the generator |
| `sample_paths.dfy` | `SamplePaths` | the generator's output follows the path convention |
| `root_range.dfy` | `RootRange` | `getRootItemRange` as a loop, and `createSampleData` |
| `pipeline.dfy` | `Pipeline` | the store's filtered list fed to `buildTree` |

The path convention is stated as `PathsWellFormed`:

- ids are unique;
- each path ends in the item's id;
- a child's path is its parent's path, a slash and its own id.

With `ParentsPresent` (no item names a missing parent), the convention is what
makes `buildTree` place every item. The generator establishes both
(`SamplePaths.GeneratedWellFormed`). The filtered list keeps both, because it
is closed under ancestors (`Pipeline.ViewWellFormed`, `Pipeline.ViewParentsPresent`).

## Model

| member | source | states |
|---|---|---|
| Match.MatchesSearch | src/utils/treeUtils.ts:93-95 | the empty query matches; a query equal to a field up to ASCII case matches; a non-empty query matches only when some field is at least as long as it |
| Match.MatchesPriority | src/utils/treeUtils.ts:97 | `"all"` accepts every item; a named priority accepts exactly the items carrying it |
| Match.DirectMatch | src/utils/treeUtils.ts:93-101 | the defaults match every item; a match under a named priority carries that priority, and a non-empty query fits in the title or the description |
| Match.DefaultsMatchEverything | src/utils/treeUtils.ts:93-101 | with the empty query and the `"all"` filter every item matches directly |
| Match.SearchIgnoresCase | src/utils/treeUtils.ts:93-95 | two queries that lower to the same string match the same items |
| Match.SearchEitherField | src/utils/treeUtils.ts:93-95 | a non-empty query matches exactly when its lowered form occurs in the lowered title or in the lowered description |
| Match.UpperCaseQueryFindsLowerCaseTitle | src/utils/treeUtils.ts:94 | the query `"ALPHA"` finds an item titled `"alpha test"` |
| TreeUtils.GetDepth | src/utils/treeUtils.ts:74-76 | the depth is the number of slashes in the path |
| TreeUtils.GetAncestorIds | src/utils/treeUtils.ts:64-67 | one ancestor per level (as many as the depth); none contains a slash; with the last segment they join back into the path |
| TreeUtils.RootPathAncestors | src/utils/treeUtils.ts:64-76 | a path without a slash has no ancestors, depth 0, no parent, and is its own last segment |
| TreeUtils.ChildPathAncestors | src/utils/treeUtils.ts:64-76 | appending `/id` makes the parent path's segments the ancestors, adds one to the depth, and makes the parent path's last segment the parent id |
| TreeUtils.RootPathHasNoSlash | src/utils/treeUtils.ts:25-28 | a path splits into one segment exactly when it contains no slash |
| TreeUtils.NotOwnDescendant | src/utils/treeUtils.ts:104-106 | an item is never its own descendant |
| TreeUtils.DescendantTransitive | src/utils/treeUtils.ts:104-106 | lying below a path is transitive |
| TreeUtils.ItemOrDescendantsMatch | src/utils/treeUtils.ts:86-117 | true exactly when the item matches directly or some listed item whose path starts with the item's path and a slash matches directly |
| TreeUtils.DefaultsAcceptEverything | src/utils/treeUtils.ts:93-101 | with the default query and filter every item is accepted |
| TreeUtils.AcceptedPropagatesUp | src/utils/treeUtils.ts:104-116 | if an item below `a` is accepted, so is `a` |
| BuildTree.ItemMap | src/utils/treeUtils.ts:10-19 | the map holds every input id, each mapped to an input item with that id |
| BuildTree.ItemMapLastWins | src/utils/treeUtils.ts:13-19 | for a repeated id the map holds the last item with that id |
| BuildTree.ItemMapOfUnique | src/utils/treeUtils.ts:13-19 | with unique ids every item is found under its own id |
| BuildTree.Link | src/utils/treeUtils.ts:21-43 | the root list holds the ids of the single-segment items in input order; each present parent collects the ids of the items naming it, in input order; a missing parent collects nothing |
| BuildTree.ChildLink | src/utils/treeUtils.ts:32-41 | `c` is linked under `p` exactly when `c`'s second-to-last segment is `p`'s id |
| BuildTree.Cleanup | src/utils/treeUtils.ts:46-52 | keeps the item and the children's items in their order; removes the children array exactly when it is empty; leaves no empty array anywhere below |
| BuildTree.CleanupSameTree | src/utils/treeUtils.ts:46-52 | cleaning up deletes only empty arrays: an item lies in the cleaned node exactly when it lies in the original |
| BuildTree.BuildTree | src/utils/treeUtils.ts:8-57 | the forest's items are the single-segment items in input order, and no node carries an empty children array |
| BuildTree.BuildTreeRoots | src/utils/treeUtils.ts:24-30 | the forest is, position by position, the node of each root item |
| BuildTree.NodeForShape | src/utils/treeUtils.ts:18-52 | a node carries its item unchanged; its children are the nodes of the items naming it as parent, in input order; children are absent exactly when there are none |
| BuildTree.NodeForChild | src/utils/treeUtils.ts:32-41 | the k-th child of an item's node is the node of the k-th item naming it as parent |
| BuildTree.NodeForKidItems | src/utils/treeUtils.ts:32-52 | the items of a node's children are exactly the input items naming it as parent, in input order |
| BuildTree.SubtreeItemsAttached | src/utils/treeUtils.ts:32-41 | everything under an item's node, except the item, is an input item whose parent is in the list |
| BuildTree.DanglingItemDropped | src/utils/treeUtils.ts:34-41 | an item whose parent id names no input item appears nowhere in the forest |
| BuildTreePaths.WellFormedIsAcyclic | src/utils/treeUtils.ts:32-41 | under the path convention a parent's path is shorter than its child's, so parent links never cycle |
| BuildTreePaths.SubtreeIsPathPrefix | src/utils/treeUtils.ts:24-54 | the subtree under an item's node holds exactly that item and the input items whose path starts with its path and a slash |
| BuildTreePaths.SubtreeBelow | src/utils/treeUtils.ts:32-54 | everything in an item's subtree is an input item at or below that item's path |
| BuildTreePaths.SubtreeTakesChildren | src/utils/treeUtils.ts:32-54 | an item reached in a subtree brings every item naming it as parent into that subtree |
| BuildTreePaths.ParentBelow | src/utils/treeUtils.ts:32-41 | an item below `r` has a present parent with a shorter path, which is `r` or lies below `r` |
| BuildTreePaths.EveryItemPlaced | src/utils/treeUtils.ts:24-54 | on a list following the path convention with no dangling parents, every input item is in the forest |
| BuildTreePaths.DescendantOfChildPath | src/utils/treeUtils.ts:104-106 | a path one segment below `b` lies below `a` only if `b` is `a` or lies below `a` |
| TreeFilter.FilterNodes | react18/src/utils/itemOrDescendantsMatch.ts:12-27 | the result is never longer than the input; what it holds is stated by `FilterNodesSpec`, `FilterNodesMembers` and `KeepIffSubtreeMatch` |
| TreeFilter.Keep | react18/src/utils/itemOrDescendantsMatch.ts:17-26 | a directly matching node is kept; a kept node matches directly or has children |
| TreeFilter.FilterNodesIsFilter | react18/src/utils/itemOrDescendantsMatch.ts:17 | the recursion is `filter` with the keep callback |
| TreeFilter.FilterNodesMembers | react18/src/utils/itemOrDescendantsMatch.ts:17-26 | the result is an order-preserving subsequence of the input, holding exactly the kept nodes, returned whole |
| TreeFilter.FilterNodesNonEmpty | react18/src/utils/itemOrDescendantsMatch.ts:20-23 | filtering leaves something exactly when some node is kept |
| TreeFilter.AbsentLikeEmpty | react18/src/utils/itemOrDescendantsMatch.ts:20-22 | a node without a children array is kept exactly when the same node with an empty array is |
| TreeFilter.KeepUnfold | react18/src/utils/itemOrDescendantsMatch.ts:18-25 | a node is kept exactly when it matches directly or some child is kept |
| TreeFilter.KeepIffSubtreeMatch | react18/src/utils/itemOrDescendantsMatch.ts:12-27 | a node is kept exactly when some item in its subtree, itself included, matches directly |
| TreeFilter.FilterNodesSpec | react18/src/utils/itemOrDescendantsMatch.ts:12-27 | the result holds exactly the input nodes with a direct match somewhere in their subtree |
| TreeFilter.DefaultsKeepAll | react18/src/utils/itemOrDescendantsMatch.ts:3-9 | with the default query and filter the forest comes back unchanged |
| TreeFilter.KeepAgreesWithFlat | react18/src/utils/itemOrDescendantsMatch.ts:17-26 | the node of any item of a well-formed list is kept exactly when the flat predicate accepts the item |
| TreeFilter.TreeFilterAgreesWithFlat | react18/src/utils/itemOrDescendantsMatch.ts:11-27 | on the forest built from a well-formed list, a root is kept exactly when the flat predicate accepts its item |
| TreeFilter.TreeFilterKeepsFlatMatches | react18/src/utils/itemOrDescendantsMatch.ts:11-27 | the kept roots are exactly the forest's roots whose item the flat predicate accepts |
| TreeStore.FilteredView | src/store/treeStore.ts:76-80 | the filtered list is an order-preserving subsequence of the items; its members are stated by `FilteredViewMembers` |
| TreeStore.PriorityOnlyView | src/store/treeStore.ts:76-80 | with the empty query and one priority, every item with that priority is shown, and a shown item has it or has a listed item below it that does |
| TreeStore.Init | src/store/treeStore.ts:23-30 | the initial state shows every item, with the empty query and the `"all"` filter, and is consistent |
| TreeStore.DefaultViewIsEverything | src/store/treeStore.ts:71-80 | the full filter with the default query and filter returns the list unchanged, so the shortcut agrees with it |
| TreeStore.FindAndSetFilteredItems | src/store/treeStore.ts:68-81 | the filtered list becomes the full filter of the current items; nothing else changes |
| TreeStore.FilteredViewMembers | src/store/treeStore.ts:76-80 | the filtered list is an order-preserving subsequence holding exactly the accepted items |
| TreeStore.FilteredViewAncestorClosed | src/store/treeStore.ts:76-80 | an item above a kept item is kept too |
| TreeStore.SetSearchQuery | src/store/treeStore.ts:58-61 | only the query changes, and the filtered list is recomputed from the current items |
| TreeStore.SetPriorityFilter | src/store/treeStore.ts:63-66 | only the filter changes, and the filtered list is recomputed from the current items |
| TreeStore.Toggle | src/store/treeStore.ts:34-39 | same length; `isExpanded` flips exactly on the items with the id; every other field is unchanged |
| TreeStore.ToggleExpanded | src/store/treeStore.ts:32-41 | both lists get the same flip; query and filter stay |
| TreeStore.ToggleTwice | src/store/treeStore.ts:32-41 | toggling the same id twice restores the state |
| TreeStore.Hover | src/store/treeStore.ts:45-54 | same length; an item is hovered afterwards exactly when it has the id and the flag is set; every other field is unchanged |
| TreeStore.SetHovered | src/store/treeStore.ts:43-56 | both lists get the same hover update; query and filter stay |
| TreeStore.HoverNoneClears | src/store/treeStore.ts:43-56 | `setHovered(null, false)` clears every hover flag in both lists |
| TreeStore.HoverExclusive | src/store/treeStore.ts:43-56 | afterwards every hovered item carries the given id |
| TreeStore.HoverIdempotent | src/store/treeStore.ts:43-56 | repeating a hover update changes nothing more |
| TreeStore.FlagUpdateCommutes | src/store/treeStore.ts:32-81 | updating UI flags item by item commutes with filtering |
| TreeStore.ToggleKeepsConsistent | src/store/treeStore.ts:32-41 | after a toggle the filtered list is still the full filter of the items |
| TreeStore.HoverKeepsConsistent | src/store/treeStore.ts:43-56 | after a hover update the filtered list is still the full filter of the items |
| TreeStore.ConsistentViewAncestorClosed | src/store/treeStore.ts:76-80 | in a consistent state every listed item above a shown item is shown |
| SampleData.GenerateRootItem | src/store/sampleData.ts:61-160 | a block is never empty and starts with the root item |
| SampleData.GenerateRootItemCount | src/store/sampleData.ts:85-157 | a block has 1, 1 + childCount, or 1 + 3·branchCount + leafCount items by template |
| SampleData.GenerateRootItemRoot | src/store/sampleData.ts:67-82 | the root's id and path are `String(r)`; it is a root path; `isLeaf` holds exactly when the block is the root alone; the priority is `priorities[r % 3]` |
| SampleData.Depth2ChildPriority | src/store/sampleData.ts:85-100 | depth-2 child `i` sits at position `i`, has id `r-i`, is a leaf, and has priority `priorities[(r % 3 + i) % 3]` |
| SampleData.BranchesAt | src/store/sampleData.ts:101-138 | branch `c` sits at offset `3(c-1)`, followed by its two grandchildren |
| SampleData.LeafChildrenAt | src/store/sampleData.ts:140-156 | the k-th trailing leaf has child index `first + k + 1` |
| SampleData.GenerateRoots | src/store/sampleData.ts:163-172 | the blocks of roots `1..n` are non-empty once there is a root; their shape is stated by `GeneratedWellFormed`, `BlockOneRoot` and `GeneratedRange` |
| SampleData.GenerateRootsLength | src/store/sampleData.ts:166-169 | every root contributes at least its own item, so roots `1..n` give at least `n` items |
| SampleData.GenerateAllData | src/store/sampleData.ts:162-172 | the 200 blocks hold at least 200 items and start with root 1 |
| SampleData.GenerateRootsHead | src/store/sampleData.ts:163-172 | the generated list starts with root 1 |
| SamplePaths.IdOfInjective | src/store/sampleData.ts:85-157 | different number keys give different `-`-joined ids |
| SamplePaths.PathOfSegments | src/store/sampleData.ts:85-157 | a generated path ends in the item's id and names the parent key's id as parent |
| SamplePaths.KeyedWellFormed | src/store/sampleData.ts:85-157 | keyed items with distinct keys, each parent key earlier in the list, follow the path convention and have their parents earlier |
| SamplePaths.RootKeyed | src/store/sampleData.ts:61-160 | each block's items carry the ids and paths of its keys |
| SamplePaths.RootKeysClosed | src/store/sampleData.ts:101-157 | within a block each parent key comes before its children |
| SamplePaths.AllKeysDistinct | src/store/sampleData.ts:163-172 | no key repeats across the generated blocks |
| SamplePaths.GeneratedWellFormed | src/store/sampleData.ts:61-172 | the blocks of roots `1..n` follow the path convention and emit every parent before its children |
| RootRange.GetRootItemRange | src/store/sampleData.ts:178-196 | the loop with its `break` returns the slice from the first root entry to the root entry that would exceed the count |
| RootRange.RootEntryIsRootPath | src/store/sampleData.ts:183 | the loop's root test (no `/` in the path) is the tree builder's (one path segment) |
| RootRange.NonPositiveCountEmpty | src/store/sampleData.ts:183-188 | a count of zero or less returns nothing |
| RootRange.RangeBounds | src/store/sampleData.ts:182-193 | a non-empty result starts with a root entry; the slice stops at a root entry or at the end of the data |
| RootRange.RangeRootCount | src/store/sampleData.ts:178-196 | the result holds `min(rootCount, number of roots)` root entries |
| RootRange.BlockOneRoot | src/store/sampleData.ts:72-157 | each generated block has exactly one root entry, at its head |
| RootRange.GeneratedRange | src/store/sampleData.ts:163-196 | asking the blocks of roots `1..n` for `k <= n` roots gives exactly the blocks of roots `1..k` |
| RootRange.CreateSampleData | src/store/sampleData.ts:198-201 | `createSampleData` is the blocks of roots 1 to 7 |
| Pipeline.ViewUniqueIds | src/store/treeStore.ts:76-80 | the filtered list keeps ids unique |
| Pipeline.ViewWellFormed | src/store/treeStore.ts:76-80 | the filtered list of a list following the path convention follows it too |
| Pipeline.ViewParent | src/store/treeStore.ts:76-80 | the parent of a shown item is shown too |
| Pipeline.ViewParentsPresent | src/store/treeStore.ts:76-80 | the filtered list has no dangling parents when the full list has none |
| Pipeline.InitialStore | src/store/treeStore.ts:23-30 | the store starts on the generated data with everything shown, the empty query and the `"all"` filter; its items follow the path convention with every parent present |
| Pipeline.DocumentTree | react18/src/components/DocumentView.tsx:9-11 | the tree built from the filtered list holds exactly the filtered items |
| Pipeline.GeneratedDocumentTree | react18/src/components/DocumentView.tsx:9-11 | on the generated data the document tree holds exactly the filtered items, for every query and filter |

## Left out

- The artificial busy-wait loop in `buildTree` (src/utils/treeUtils.ts:15-17). It has no effect on the result.
- React components, hooks, `useMemo`, Zustand's `create`/`set`/`get` and the selector hooks. The store is a pure state record, and each action is a function from state to state.
- `toLowerCase` is modelled as ASCII lowering. Unicode case mapping, which can change a string's length, is not modelled.
- The category, topic and subtopic text tables of the generator. Titles and descriptions come from a `Labels` parameter that maps an id to its texts; ids, paths, priorities, `isLeaf` and counts are modelled exactly.
- The priority filter is a datatype (`All` or one priority). A filter string outside `"all" | Priority` cannot be expressed.
- `getRootItemRange` takes an integer count. JavaScript would also accept a fractional count.
- `createLargeSampleData` returns the cached `generateAllData()` list, so it is `GenerateAllData` itself; the store's initial state over it is `Pipeline.InitialStore`.
- BuildTree.BuildTree: requires unique ids. With a repeated id the source pushes one shared node object under several parents, and a mutation through one alias shows through all of them. Only the id map's last-wins rule is modelled for that case (`ItemMapLastWins`).
- BuildTree.BuildTree: requires every present parent to have a shorter path than its child (`ParentPathsShorter`). This rules out cycles among parent links, and the source also terminates on a list whose cycles no root reaches, dropping their items; that case is not modelled.
- BuildTree.BuildTree: the same requirement also excludes acyclic lists whose paths do not follow the parent chain. Example: `r` with path `r`, `p` with path `zzzzzz/r/p`, `c` with path `p/c`. The source links by the second-to-last segment alone and builds `r → p → c`; the model does not cover this list, because `p`'s path is longer than `c`'s. Every list that follows the path convention meets the requirement (`BuildTreePaths.WellFormedIsAcyclic`), and so does the generated data.
- In-place mutation in `buildTree`: parent nodes collect children by `push` and `cleanupChildren` uses `delete`. The model builds the same forest functionally: one map pass, one link pass, then materialised nodes and a cleanup pass.
