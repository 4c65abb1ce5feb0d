# driver-matching, modelled in Dafny

The library keeps driver ids on a fixed `N × M` integer grid, with at most
one id per cell. It answers k-nearest-neighbour queries: the `k` ids
closest to a query cell by squared Euclidean distance, ties broken by
ascending id. It has three interchangeable finders behind the
`IDriverFinder` contract:

- **brute force**: two dictionaries, id → cell and cell → id, and a linear
  scan;
- **ring grid**: a dense `N·M` array of ids (`-1` for an empty cell) and a
  scan of growing square rings that stops early;
- **kd-tree**: the same two dictionaries, plus a median-split 2-d tree.
  The tree is rebuilt lazily and searched by branch and bound.

All three share one top-k helper (`Utils.AddTopK`), which keeps a list of
at most `k` answers sorted by `(Dist2, Id)`.

The model has eight modules:

- `Models` holds the value types: `Point`, `DriverResult`, and the
  errors the finders throw, as values.
- `Utils` holds `Dist2`, `CheckPoint`, `AddTopK` (a method with the
  source's loop) and `WorstDist2`.
- `Ranking` gives the meaning of a top-k list. `IsTopK(res, items, k)`
  says that `res` lists the smallest elements of `items`. `TopK(byId, q, k)`
  is the reference answer for a state. The module proves that every
  `IsTopK` list is that answer, and that folding `AddTopK` over any
  arrangement of the entries builds it.
- `DriverFinder` is the shared contract. The abstract state is the map
  `byId` from id to cell. `AfterUpsert`, `AfterRemove` and
  `FindNearestSpec` say what each operation does to that map.
- `BruteForce`, `RingGrid` and `KdTree` hold one class per finder. Each
  class keeps the source's fields, and its methods are proved to follow
  the shared contract. So every `FindNearest` returns exactly
  `TopK(byId, q, k)`.
- `Scenarios` states the unit tests as lemmas and methods about the model. It also states
  the cross-finder agreement for every state and every query.

## Model

| member | source | states |
|---|---|---|
| Utils.Dist2 | src/DriverMatching/Utils.cs:5-10 | The squared distance is never negative. It is zero exactly when the two cells coincide, and at least the square of each coordinate difference. |
| Utils.Dist2Symmetric | src/DriverMatching/Utils.cs:5-10 | The distance from a to b equals the distance from b to a. |
| Utils.Dist2FitsLong | src/DriverMatching/Utils.cs:7-9 | For two cells of a grid whose sides fit in `int`, the squared distance fits in a `long`. So the source's `long` arithmetic never wraps. |
| Utils.CheckPoint | src/DriverMatching/Utils.cs:12-16 | Validation passes exactly for in-grid cells. An out-of-range `x` is reported first and names `x`. Otherwise an out-of-range `y` names `y`. |
| Utils.InsertPos | src/DriverMatching/Utils.cs:21-28 | The scan stops at the first entry strictly after the item in `(dist2, id)` order. The item is never placed before an entry it does not precede. |
| Utils.Insert | src/DriverMatching/Utils.cs:30 | Inserting adds exactly the item: the length grows by one, and the multiset gains the item. |
| Utils.InsertBounded | src/DriverMatching/Utils.cs:30-33 | Definition, no ensures: the ordered insertion, with its last entry dropped when it exceeds `k`. `Utils.AddTopKGrowsOrEvicts` states its properties. |
| Utils.AddTopK | src/DriverMatching/Utils.cs:18-34 | The loop with its insert and evict leaves the ordered insertion trimmed back to `k` entries. |
| Utils.InsertKeepsSorted | src/DriverMatching/Utils.cs:21-30 | Ordered insertion into a sorted list keeps it sorted. |
| Utils.AddTopKKeepsInvariant | src/DriverMatching/Utils.cs:18-34 | A sorted list of length ≤ k stays sorted, and of length ≤ k, after AddTopK. |
| Utils.AddTopKGrowsOrEvicts | src/DriverMatching/Utils.cs:30-33 | Below `k` the list grows by exactly the item and nothing is evicted. At `k` the length stays `k`, and the one entry dropped is a maximum of the old list plus the item. |
| Utils.WorstDist2 | src/DriverMatching/Utils.cs:36-40 | The bound is unbounded (`None`) exactly when fewer than `k` entries are held. Otherwise it is the last entry's distance. |
| Utils.WorstIsLargest | src/DriverMatching/Utils.cs:36-40 | On a sorted list, a finite bound is at least every entry's distance. |
| Ranking.MakeResult | src/DriverMatching/BruteForceFinder.cs:64-69 | Definition, no ensures: the answer for an entry, its id and cell with `Dist2` from the query. |
| Ranking.ItemsHaveDistinctIds | src/DriverMatching/BruteForceFinder.cs:64-69 | The answers for distinct ids have distinct ids, each at its own cell and distance. |
| Ranking.ItemsOfAdd | src/DriverMatching/BruteForceFinder.cs:64-70 | Scanning one more id adds exactly its answer, which is new. |
| Ranking.InsertKeepsStrict | src/DriverMatching/Utils.cs:21-30 | Inserting an item with a new id into a strictly ascending list keeps it strictly ascending. Everything before the item precedes it, and everything after it follows it. |
| Ranking.InsertMembers | src/DriverMatching/Utils.cs:30 | After the insertion, the list's members are the old ones plus the item. |
| Ranking.AddTopKStepGrow | src/DriverMatching/Utils.cs:30 | A non-full top-k list of a set, plus one new item, is the top-k of the enlarged set. |
| Ranking.InsertedPrefixBefore | src/DriverMatching/Utils.cs:30-33 | Inserting into a list whose entries all precede `e` keeps every entry of its old length preceding `e`. |
| Ranking.AddTopKStepEvict | src/DriverMatching/Utils.cs:30-33 | For a full top-k list, inserting a new item and dropping the last entry gives the top-k of the enlarged set. |
| Ranking.AddTopKStep | src/DriverMatching/Utils.cs:18-34 | AddTopK turns the top-k of a set into the top-k of the set plus any item with a new id. |
| Ranking.NotBeforeAtFirstDifference | src/DriverMatching/Utils.cs:18 | Two top-k lists of one set cannot differ at their first difference with one entry preceding the other. |
| Ranking.NextNotInPrefix | src/DriverMatching/Utils.cs:18 | The next entry of a longer top-k list is an element of the set, missing from any prefix. |
| Ranking.PrefixIsWhole | src/DriverMatching/Utils.cs:18 | A top-k list that is a prefix of another top-k list of the same set is the whole of it. |
| Ranking.TopKUnique | src/DriverMatching/Utils.cs:18 | A set of answers with distinct ids has exactly one top-k list. This is why the finders can agree on exact lists. |
| Ranking.ExtendBeyondWorst | src/DriverMatching/RingGridFinder.cs:75-78 | A full top-k list stays the top-k when the set grows by elements all farther than its last entry. Both early exits rely on this. |
| Ranking.NearestExists | src/DriverMatching/Utils.cs:18 | A non-empty state has a nearest id under the `(dist2, id)` order. |
| Ranking.SortedItems | src/DriverMatching/Utils.cs:18 | All answers for a state, in strictly ascending `(dist2, id)` order, each exactly once. |
| Ranking.TopK | src/DriverMatching/BruteForceFinder.cs:57-73 | The reference answer is a top-k list of all the state's answers. |
| Ranking.EqualsTopK | src/DriverMatching/BruteForceFinder.cs:57-73 | Any top-k list of the state's answers is the reference answer. |
| Ranking.TopKOfEmpty | src/DriverMatching/BruteForceFinder.cs:62-72 | An empty state answers with the empty list. |
| Ranking.FoldTopK | src/DriverMatching/BruteForceFinder.cs:64-70 | Definition, no ensures: AddTopK folded over a sequence of answers in the order given. |
| Ranking.FoldIsTopK | src/DriverMatching/BruteForceFinder.cs:64-70 | Feeding any sequence of answers with distinct new ids through AddTopK extends a top-k list to the top-k of the union. |
| Ranking.FoldOrderIrrelevant | src/DriverMatching/BruteForceFinder.cs:64-70 | Two arrangements of the same answers, folded through AddTopK from an empty list, give the same list. The dictionary's enumeration order does not matter. |
| Ranking.FoldIsTopKOfEntries | src/DriverMatching/BruteForceFinder.cs:62-72 | Folding AddTopK from an empty list over the state's answers, in any order that lists each once, gives exactly `TopK(byId, q, k)`: the brute-force loop's result in every enumeration order. |
| DriverFinder.CheckGrid | src/DriverMatching/BruteForceFinder.cs:15-16 | The constructor accepts exactly `n > 0 && m > 0`. `n` is reported before `m`. |
| DriverFinder.CheckRingGrid | src/DriverMatching/RingGridFinder.cs:15-18 | The ring grid also refuses more than `int.MaxValue` cells, reported against `n`, after the two sign checks. |
| DriverFinder.CheckQuery | src/DriverMatching/BruteForceFinder.cs:59-60 | A query passes exactly for an in-grid cell and `k > 0`. The cell is checked first, then `k`. |
| DriverFinder.InverseHeldByOther | src/DriverMatching/BruteForceFinder.cs:33-43 | With inverse dictionaries, looking up the target cell tells exactly whether another id holds it. |
| DriverFinder.InverseMove | src/DriverMatching/BruteForceFinder.cs:36-38 | Moving an id to a cell no other id holds keeps the dictionaries mutually inverse. |
| DriverFinder.InverseAdd | src/DriverMatching/BruteForceFinder.cs:42-46 | Placing a new id on a cell that is not occupied keeps the dictionaries mutually inverse. |
| DriverFinder.AfterUpsert | src/DriverMatching/BruteForceFinder.cs:21-47 | Definition, no ensures: the shared Upsert contract on `byId`. `DriverFinder.UpsertSpec` states its properties. |
| DriverFinder.UpsertSpec | src/DriverMatching/BruteForceFinder.cs:21-47 | Upsert succeeds exactly for `id ≥ 0` on an in-grid cell that no other id holds. Then `id` sits there, the state stays well formed (one id per cell, all in the grid), and no other id moves. |
| DriverFinder.UpsertIdempotent | src/DriverMatching/BruteForceFinder.cs:28-31 | A second identical Upsert succeeds and changes nothing. |
| DriverFinder.AfterRemove | src/DriverMatching/BruteForceFinder.cs:49-55 | Definition, no ensures: the shared Remove contract on `byId`. `DriverFinder.RemoveSpec` states its properties. |
| DriverFinder.RemoveSpec | src/DriverMatching/BruteForceFinder.cs:49-55 | Remove reports whether the id was present and deletes exactly it, keeping the state well formed. An absent id changes nothing. |
| DriverFinder.InverseRemove | src/DriverMatching/BruteForceFinder.cs:51-53 | Deleting a present id and its cell from both dictionaries keeps them mutually inverse. |
| DriverFinder.RemoveUndoesInsert | src/DriverMatching/BruteForceFinder.cs:42-55 | Removing an id that an Upsert just added restores the earlier state. |
| DriverFinder.FindNearestSpec | src/DriverMatching/BruteForceFinder.cs:57-73 | Definition, no ensures: validation, then `TopK(byId, q, k)`. `DriverFinder.FindNearestSpecFacts` states its properties. |
| DriverFinder.FindNearestSpecFacts | src/DriverMatching/BruteForceFinder.cs:57-73 | A query succeeds exactly when validation passes. Its answers are then strictly ascending by `(dist2, id)` and at most `k`. Each answer is a present id at its own cell with the true distance. A short list contains every id, and an empty state gives `[]`. |
| BruteForce.BruteForceFinder.constructor | src/DriverMatching/BruteForceFinder.cs:13-19 | A new finder is empty and keeps the grid size. |
| BruteForce.BruteForceFinder.Create | src/DriverMatching/BruteForceFinder.cs:13-19 | Construction fails exactly as CheckGrid says, with its error. Otherwise it yields a valid, empty finder. |
| BruteForce.BruteForceFinder.Upsert | src/DriverMatching/BruteForceFinder.cs:21-47 | The new `byId` is AfterUpsert of the old one, or the reported error with both dictionaries unchanged. The dictionaries stay mutually inverse. |
| BruteForce.BruteForceFinder.Remove | src/DriverMatching/BruteForceFinder.cs:49-55 | The result and the new `byId` are AfterRemove of the old one. The cell is freed with it, and the dictionaries stay inverse. |
| BruteForce.BruteForceFinder.FindNearest | src/DriverMatching/BruteForceFinder.cs:57-73 | Whatever order the dictionary yields its entries in, the answer is the validation error or exactly `TopK(byId, q, k)`. |
| RingGrid.Cheb | src/DriverMatching/RingGridFinder.cs:84-114 | The ring number of a cell is the larger of the two coordinate distances. |
| RingGrid.MaxRadius | src/DriverMatching/RingGridFinder.cs:69 | Definition, no ensures: the largest distance from the query to a grid edge. `RingGrid.MaxRadiusCovers` states its property. |
| RingGrid.MaxRadiusCovers | src/DriverMatching/RingGridFinder.cs:69 | Every grid cell lies within ring `maxR` of an in-grid query. |
| RingGrid.OutsideRingsIsFar | src/DriverMatching/RingGridFinder.cs:76 | A cell on ring `r+1` or beyond is at squared distance at least `(r+1)²`. |
| RingGrid.ItemsAtAdd | src/DriverMatching/RingGridFinder.cs:116-123 | Trying a cell held by an id adds exactly that id's answer, which is new. |
| RingGrid.ItemsAtAddEmpty | src/DriverMatching/RingGridFinder.cs:118-119 | Trying an empty cell adds no answer. |
| RingGrid.EarlyStopSound | src/DriverMatching/RingGridFinder.cs:75-78 | After rings `0..r`, a full list whose last distance is below `(r+1)²` is already the full answer `TopK`. |
| RingGrid.AllRingsScanned | src/DriverMatching/RingGridFinder.cs:71-81 | After ring `maxR`, the scanned cells' top-k is `TopK` of the whole state. |
| RingGrid.RingShape | src/DriverMatching/RingGridFinder.cs:94-113 | For `r ≥ 1`, a cell is on ring `r` exactly when it is on the two full-width rows or on the two columns without their corners. No cell is on both. |
| RingGrid.Idx | src/DriverMatching/RingGridFinder.cs:27 | The index of an in-grid cell lies in `[0, N·M)`, and division and remainder by `M` recover the cell. |
| RingGrid.IdxInjective | src/DriverMatching/RingGridFinder.cs:27 | Two in-grid cells have the same index exactly when they are the same cell. |
| RingGrid.MirrorsPlace | src/DriverMatching/RingGridFinder.cs:50-51 | Writing a new id into an empty cell keeps the array mirroring the dictionary. |
| RingGrid.MirrorsMove | src/DriverMatching/RingGridFinder.cs:44-46 | Clearing the old cell and writing the id into an empty new one keeps the mirror. |
| RingGrid.MirrorsRemove | src/DriverMatching/RingGridFinder.cs:57-58 | Clearing a removed id's cell keeps the mirror. |
| RingGrid.RingGridFinder.constructor | src/DriverMatching/RingGridFinder.cs:13-25 | A new finder has a fresh array of `N·M` cells, all `-1`, and an empty dictionary. |
| RingGrid.RingGridFinder.Create | src/DriverMatching/RingGridFinder.cs:13-25 | Construction fails exactly as CheckRingGrid says, with its error. Otherwise it yields a valid, empty finder. |
| RingGrid.RingGridFinder.Upsert | src/DriverMatching/RingGridFinder.cs:29-52 | Checking occupancy in the array first gives the same outcome as the shared contract: AfterUpsert, or the error with array and dictionary unchanged. The array keeps mirroring the dictionary. |
| RingGrid.RingGridFinder.Remove | src/DriverMatching/RingGridFinder.cs:54-60 | This is AfterRemove with the cell cleared. An absent id leaves the array unchanged. |
| RingGrid.RingGridFinder.FindNearest | src/DriverMatching/RingGridFinder.cs:62-82 | Ring scanning with the early break returns the validation error or exactly `TopK(byId, q, k)`, the brute-force answer. |
| RingGrid.RingGridFinder.ScanRing | src/DriverMatching/RingGridFinder.cs:84-114 | After ring `r` the scanned cells are exactly the in-grid cells of rings `0..r`. Each ring cell is tried once, and the list is their top-k. |
| RingGrid.RingGridFinder.ScanRows | src/DriverMatching/RingGridFinder.cs:97-104 | The row loop adds exactly the in-grid cells of the two full-width rows, keeping the list their top-k. |
| RingGrid.RingGridFinder.ScanColumns | src/DriverMatching/RingGridFinder.cs:106-113 | The column loop adds exactly the in-grid cells of the two columns without their corners, keeping the list their top-k. |
| RingGrid.Wrap32 | src/DriverMatching/RingGridFinder.cs:94-98 | C# unchecked `int` arithmetic: the result is in the `int` range, equals the input when that is already in range, and `int.MaxValue + 1` wraps to `int.MinValue`. |
| RingGrid.RowLoopExitsAsWritten | src/DriverMatching/RingGridFinder.cs:97-98 | Definition, no ensures: whether the row loop as written, with `xx++` wrapped by Wrap32, leaves within `steps` iterations. `RingGrid.RowLoopNeverExits` states its property. |
| RingGrid.RowLoopNeverExits | src/DriverMatching/RingGridFinder.cs:97-98 | With `x1 == int.MaxValue`, the row loop as written, with `xx++` wrapping, does not leave within any number of steps. |
| RingGrid.RingScanHangsAsWritten | src/DriverMatching/RingGridFinder.cs:13-98 | The constructor accepts `n = 2^30 + 1, m = 1`. On the query cell `(2^30, 0)`, ring `2^30 - 1` is within `maxR` and has `x1 = int.MaxValue`, so its row loop as written never ends. |
| RingGrid.ColumnScanHangsAsWritten | src/DriverMatching/RingGridFinder.cs:95-107 | The constructor accepts `n = 1, m = 2^30 + 1`. On the query cell `(0, 2^30)`, the last ring `r = 2^30` has `y1 = cy + r` wrapping to `int.MinValue`, so `y1 - 1` wraps to `int.MaxValue`. The column loop, of the same shape as the row loop, then never ends. |
| RingGrid.RingGridFinder.TryCell | src/DriverMatching/RingGridFinder.cs:116-123 | Trying a cell not yet scanned adds it to the scanned cells and keeps the list their top-k. |
| KdTree.AxisLeq | src/DriverMatching/KdTreeFinder.cs:103-115 | Definition, no ensures: the sort comparer, by the depth's axis and then the other coordinate. `KdTree.AxisLeqTotalOrder` states its properties. |
| KdTree.AxisLeqTotalOrder | src/DriverMatching/KdTreeFinder.cs:103-115 | The sort comparer is a total, antisymmetric, transitive order on cells. |
| KdTree.InsertByAxis | src/DriverMatching/KdTreeFinder.cs:103-115 | Ordered insertion keeps the list sorted by the comparer and adds exactly the entry. |
| KdTree.SortByAxis | src/DriverMatching/KdTreeFinder.cs:103-115 | Sorting gives a sorted permutation of its input. |
| KdTree.SortedUnique | src/DriverMatching/KdTreeFinder.cs:103-115 | With distinct cells, two sorted permutations of one list are equal. So an unstable sort gives the same list as any other sort. |
| KdTree.Build | src/DriverMatching/KdTreeFinder.cs:97-127 | The tree holds exactly the input entries, and is empty exactly for empty input. The root's subtrees hold `count/2` and `count - count/2 - 1` entries. |
| KdTree.BuildIsKdTree | src/DriverMatching/KdTreeFinder.cs:101-124 | A node at depth `d` splits on axis `d % 2`. Every left descendant is ≤ the node and every right one is ≥ it, in that axis' order. |
| KdTree.KdNode | src/DriverMatching/KdTreeFinder.cs:117-124 | A node over the median of a sorted list, whose subtrees hold the two halves and are kd-trees, is a kd-tree. |
| KdTree.BuildOrderIrrelevant | src/DriverMatching/KdTreeFinder.cs:97-127 | Over entries with distinct cells, the tree depends only on which entries there are, not on their order. |
| KdTree.RebuildOrderIrrelevant | src/DriverMatching/KdTreeFinder.cs:70-72 | Two listings of one state's entries build the same tree. |
| KdTree.Listing | src/DriverMatching/KdTreeFinder.cs:70-71 | One listing of the state's entries, each exactly once. |
| KdTree.TreeOf | src/DriverMatching/KdTreeFinder.cs:70-72 | Definition, no ensures: the tree a rebuild makes of a state, Build over that listing. By `KdTree.RebuildOrderIrrelevant` every listing gives the same tree. |
| KdTree.UniqueIdsSplit | src/DriverMatching/KdTreeFinder.cs:81-95 | In a tree with unique ids, the node's id and the ids of its two subtrees are pairwise apart. |
| KdTree.TreeItemsSpec | src/DriverMatching/KdTreeFinder.cs:129-149 | A tree's answers are exactly the answers for its entries. |
| KdTree.Coord | src/DriverMatching/KdTreeFinder.cs:137-138 | Definition, no ensures: the coordinate of a cell on an axis (`qv`, `nv`). |
| KdTree.PlaneD2 | src/DriverMatching/KdTreeFinder.cs:146 | Definition, no ensures: the squared distance to the splitting plane. `KdTree.PlaneBound` states its property. |
| KdTree.NearSide | src/DriverMatching/KdTreeFinder.cs:140 | Definition, no ensures: the subtree on the query's side of the plane, left when `qv <= nv`. |
| KdTree.FarSide | src/DriverMatching/KdTreeFinder.cs:141 | Definition, no ensures: the other subtree. `KdTree.FarSideBound` states its property. |
| KdTree.PlaneBound | src/DriverMatching/KdTreeFinder.cs:146 | A cell beyond the splitting value is at least the squared plane distance from the query. |
| KdTree.FarEntryBound | src/DriverMatching/KdTreeFinder.cs:140-146 | Every entry of the far subtree is at least `(qv - nv)²` from the query. |
| KdTree.FarSideBound | src/DriverMatching/KdTreeFinder.cs:140-146 | Every answer from the far subtree has a distance of at least `planeD2`. |
| KdTree.NodeItems | src/DriverMatching/KdTreeFinder.cs:133-148 | The node's own answer and its near and far answers are together all of the subtree's answers. |
| KdTree.NodeParts | src/DriverMatching/KdTreeFinder.cs:133-143 | The node, then its near subtree, then its far one contribute answers with ids new to what came before. |
| KdTree.ChildFresh | src/DriverMatching/KdTreeFinder.cs:134-143 | The ids of the subtree searched next are new to the answers so far and to the node. |
| KdTree.FarPartFresh | src/DriverMatching/KdTreeFinder.cs:143-148 | The far subtree's ids are also apart from the near subtree's answers. |
| KdTree.PruneFar | src/DriverMatching/KdTreeFinder.cs:145-148 | Skipping the far subtree when `planeD2` exceeds a finite worst bound keeps the list the top-k of everything so far plus the far subtree's answers. |
| KdTree.Search | src/DriverMatching/KdTreeFinder.cs:129-149 | Searching a kd-tree turns the top-k of the answers so far into the top-k of those plus all the subtree's answers. An empty tree leaves the list as it was. |
| KdTree.HoldsExactlyItems | src/DriverMatching/KdTreeFinder.cs:68-77 | A tree holding exactly the state's entries has exactly the state's answers and unique ids. |
| KdTree.KdTreeFinder.constructor | src/DriverMatching/KdTreeFinder.cs:11-22 | A new finder is empty, dirty, and has no tree. |
| KdTree.KdTreeFinder.Create | src/DriverMatching/KdTreeFinder.cs:16-22 | Construction fails exactly as CheckGrid says, with its error. Otherwise it yields a valid, empty, dirty finder. |
| KdTree.KdTreeFinder.Upsert | src/DriverMatching/KdTreeFinder.cs:24-52 | AfterUpsert as in brute force. The tree becomes dirty exactly when the state changes, and the tree itself is untouched. |
| KdTree.KdTreeFinder.Remove | src/DriverMatching/KdTreeFinder.cs:54-61 | AfterRemove as in brute force. The tree becomes dirty exactly when an id was removed. |
| KdTree.KdTreeFinder.CollectEntries | src/DriverMatching/KdTreeFinder.cs:70-71 | The listed entries are each state entry exactly once, in the dictionary's unspecified order. |
| KdTree.KdTreeFinder.Rebuild | src/DriverMatching/KdTreeFinder.cs:68-74 | After the rebuild the tree is clean and is exactly `TreeOf(byId)`, Build of the entries in whatever order the dictionary lists them. So it holds exactly the state's entries and is a kd-tree. The dictionaries are unchanged. |
| KdTree.KdTreeFinder.SearchRoot | src/DriverMatching/KdTreeFinder.cs:76-78 | Searching a clean tree from an empty list gives exactly `TopK(byId, q, k)`. |
| KdTree.KdTreeFinder.FindNearest | src/DriverMatching/KdTreeFinder.cs:63-79 | The answer is the validation error or exactly `TopK(byId, q, k)`. A clean tree is kept as it was. A dirty one is replaced by `TreeOf(byId)` on success and kept on a refusal. The dictionaries are never changed. |
| Scenarios.SimpleCaseTopK | tests/DriverMatching.Tests/FinderTests.cs:24-27 | Around (10, 10) with k = 2, the three placements give ids 1 and 2 at distances 0 and 1. |
| Scenarios.ThreeUpserts | tests/DriverMatching.Tests/FinderTests.cs:20-22 | The three upserts on an empty 20 × 20 grid all succeed. |
| Scenarios.SimpleCaseBruteForce | tests/DriverMatching.Tests/FinderTests.cs:9-29 | Simple_case on the brute-force finder: the three upserts all pass, and the query gives exactly those two answers. |
| Scenarios.SimpleCaseRingGrid | tests/DriverMatching.Tests/FinderTests.cs:9-29 | Simple_case on the ring-grid finder: the three upserts all pass, and the query gives exactly those two answers. |
| Scenarios.SimpleCaseKdTree | tests/DriverMatching.Tests/FinderTests.cs:9-29 | Simple_case on the kd-tree finder: the three upserts all pass, and the query gives exactly those two answers. |
| Scenarios.ZeroRowsRefused | src/DriverMatching/RingGridFinder.cs:15 | A grid with `n = 0` is refused by all three finders, naming `n`. The brute-force and kd-tree constructors make the same first check (src/DriverMatching/BruteForceFinder.cs:15-16, src/DriverMatching/KdTreeFinder.cs:18-19). |
| Scenarios.EmptyFinder | src/DriverMatching/BruteForceFinder.cs:57-73 | A fresh finder of each of the three kinds answers a valid query with `[]`, and `k = 0` with the error naming `k`. |
| Scenarios.SameAsBruteForce | tests/DriverMatching.Tests/FinderTests.cs:64-69 | For every state and every query, the ring-grid and kd-tree finders return exactly the brute-force list, or the same error. |

## Left out

- The result list is passed by reference in the source and by value here:
  `AddTopK`, `ScanRing`, `TryCell` and `Search` take the list and return
  the new one. Every caller owns its list alone, so no aliasing is lost.
- Machine integers are unbounded here. `Dist2FitsLong` shows that the
  source's `long` distances cannot overflow on a grid. `CheckRingGrid`
  keeps the `int.MaxValue` cell-count check.
- `RingGrid.RingGridFinder.ScanRing` does not model the 32-bit wrap of
  `cx + r` and `cy + r` (src/DriverMatching/RingGridFinder.cs:94-95). Its
  loops run over unbounded integers, and they end for that reason only. In
  the source they can run forever; see Findings.
- `long.MaxValue`, the unbounded worst distance, is `None` here.
  `Utils.WorstDist2` requires `k > 0 || |list| > 0`. The source reads
  `list[-1]` in the remaining case (`k ≤ 0` with an empty list), but no
  caller reaches it, because `k ≤ 0` is refused before every search.
- Dictionary enumeration order is unspecified. It is modelled as an
  arbitrary choice (`:|`) in each loop over `byId`, and every result is
  proved independent of it.
- `List.Sort` is modelled as an insertion sort (`KdTree.SortByAxis`).
  `KdTree.SortedUnique` shows that any other sort, stable or not, gives the
  same list, because no two entries share a cell.
- The kd-tree's `Node` objects are written only while `Build` creates
  them. They are an immutable datatype `Tree` here, and `_root` is a field
  of that type.
- Exceptions are values: `Outcome`/`Result` carry the parameter name
  (`nameof`) or `CellOccupied`. Constructors become a `Create` factory
  that returns the error. Exception messages ("Cell occupied.", "Grid too
  big.") are not kept.
- `IDriverFinder` (src/DriverMatching/Models.cs:31-38) is the set of shared functions of
  module `DriverFinder`. It is not an interface type: each class is
  proved against the same functions instead.
- The default `k = 5` of `FindNearest` is not modelled; callers always
  pass `k`.
- Ties: `AddTopK` might have been expected to insert a candidate before
  the first equal key. The code (src/DriverMatching/Utils.cs:25-26) inserts
  before the first strictly greater key, which is after any equal one. The
  model follows the code (`Utils.InsertPos`). Within one query the ids are
  distinct, so equal keys never occur and both readings give the same
  lists.
- The ring-grid `Upsert` checks the array before looking `id` up
  (src/DriverMatching/RingGridFinder.cs:34-37). The model keeps that order and proves that
  the outcome equals the shared `AfterUpsert`.
- The seeded random test (tests/DriverMatching.Tests/FinderTests.cs:31-71) cannot be replayed without
  `System.Random`. `Scenarios.SameAsBruteForce` states the agreement for
  every state and query instead.
- The benchmark project (bench/) holds timing code only, and it is not
  part of this model.

## Findings

| source | as written | input that shows it | evidently intended | confidence | as-written member | corrected member |
|---|---|---|---|---|---|---|
| src/DriverMatching/RingGridFinder.cs:94-98 | `x1 = cx + r` is an `int`, and the row loop `for (int xx = x0; xx <= x1; xx++)` runs while `xx <= x1`. When `x1 == int.MaxValue`, every `int` passes the guard, and `xx++` wraps to `int.MinValue`, so the loop never ends. | `new RingGridFinder(1073741825, 1)` (2^30 + 1 cells, accepted by the constructor), left empty, then `FindNearest(1073741824, 0, 1)`. No early stop happens, so the scan reaches ring `r = 2^30 - 1`, where `x1 = int.MaxValue`. | The row loop visits `x0..x1` once and stops, for example with `x1` clamped to `N - 1` or computed in `long`. | not executed | RingGrid.RingScanHangsAsWritten | RingGrid.RingGridFinder.ScanRows |
| src/DriverMatching/RingGridFinder.cs:95-107 | The column loop `for (int yy = y0 + 1; yy <= y1 - 1; yy++)` computes `y1 = cy + r` and `y1 - 1` in `int`. When `cy + r == 2^31`, `y1` wraps to `int.MinValue` and `y1 - 1` wraps to `int.MaxValue`, so every `int` passes the guard and the loop never ends. | `new RingGridFinder(1, 1073741825)` (2^30 + 1 cells, accepted), left empty, then `FindNearest(0, 1073741824, 1)`. Here `maxR = 2^30`, and no early stop happens. At `r = 2^30` the row loop ends, and the column loop starts at `yy = 1` against the bound `int.MaxValue`. | The column loop visits `y0 + 1 .. y1 - 1` once and stops, for example with the bounds computed in `long`. | not executed | RingGrid.ColumnScanHangsAsWritten | RingGrid.RingGridFinder.ScanColumns |
