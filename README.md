# HNSW index core (merak), modelled in Dafny

merak is an approximate nearest-neighbour index built on the Hierarchical Navigable
Small World (HNSW) algorithm. Points carry an id, a vector and, per layer, the ids of
their neighbours. Every search starts at the root point (id 0), which lies infinitely far
from everything. It descends the layers from `max_layer`, keeping one entry point per
layer, and then runs a wider beam search on layer 0. An insertion draws a level for the
new point, searches down to that level, and appends up to `degree` nearest neighbour ids
per layer. Then it saves the point, and the store appends the new id to every listed
neighbour, which keeps the edges undirected.

This project models that core, one module per source file:

- `Points` (point.dfy): the point, its identity by id, and the distance, with the root
  infinitely far. It also holds the (distance, id) order and the sort-and-take used
  throughout.
- `PointStore` (point_store.dfy): the in-memory store, a class whose `points` map
  `SavePoint` updates in place. The back edges are appended one at a time in nested loops.
- `Candidates` (candidate_set.dfy): the candidate set of a layer search. It is a class
  whose frontier and `visited` set `Pop` and `Add` change.
- `Engine` (hnsw_engine.dfy): `__search_layer` as a loop over a result heap, simple
  neighbour selection, `knn_search`, the level draw and `insert`.
- `Graph` (graph.dfy): the explicit layered graph, with nodes, per-layer adjacency lists
  and the entry point. Its edge lists stay symmetric by multiplicity under
  `add_edge`, `remove_edge_by_id` and `set_neighbors`.
- `Cache` (point_cache.dfy): the bounded node cache, both as written and with the
  least-recently-used policy it is meant to have (see Findings).
- `ElementHeap` (element.dfy): the older draft's plane elements and `Elements` heap, in
  nearest or furthest mode.
- `Draft` (draft_hnsw.dfy): the older draft's `select_neighbors_simple` and
  `select_neighbors_heuristic`.
- `Common` (common.dfy): `Option`, `Result`, `Outcome`, the error values that stand for
  the source's exceptions, and sequence-counting helpers.

A Python exception (a failed `assert`, a `KeyError`, `popitem` on an empty dict, the
`IndexError` of an empty candidate list, the `ValueError` of `randint` on an empty range)
is a `Fail`/`Err` value naming the error. The operations reached through the engine take
no precondition for it. The one exception is the `CandidateSet` constructor, which
requires a non-empty list; `__search_layer` (`Engine.Hnsw.SearchLayer`, `Engine.SearchSpec`)
returns `EmptyCandidates` for an empty entry list before constructing one. The preconditions
that remain are listed under "Left out".

## Model

| member | source | states |
|---|---|---|
| Points.NewPoint | merak/point.py:10-13 | a new point keeps its id and vector and lists no neighbour at any layer |
| Points.Root | merak/point_store.py:31 | the root point has id 0 and no neighbours |
| Points.Hash | merak/point.py:15-16 | the hash is the id (never negative) |
| Points.IdentityConsistent | merak/point.py:15-24 | equal points hash alike and are exactly those neither of which is greater; distinct points are ordered one way by id |
| Points.Dist | merak/point.py:32-35 | the distance is infinite exactly when either point is the root |
| Points.SqDistSymmetric | merak/point.py:35 | the squared norm of the difference does not depend on the argument order |
| Points.DistSymmetric | merak/point.py:32-35 | distance is symmetric, including the infinite case |
| Points.RootIsFurthest | merak/point.py:33-34 | any point other than the root is strictly nearer to a non-root query than the root |
| Points.NearerEqTotal | merak/candidate_set.py:23 | any two points are comparable in the ranking order |
| Points.NearerEqTransitive | merak/candidate_set.py:23 | the ranking order is transitive |
| Points.InsertSorted | merak/candidate_set.py:23 | inserting into a sorted list keeps it sorted and adds exactly the one point |
| Points.SortedCons | merak/candidate_set.py:23 | a point ranked no later than the head of a sorted list extends it sorted |
| Points.SortByDistance | merak/candidate_set.py:23 | the result is ascending by distance and a permutation of the input |
| Points.SortNonEmpty | merak/candidate_set.py:23 | a non-empty list sorted: ascending and a permutation |
| Points.Take | merak/candidate_set.py:58 | a slice `[0:n]` is the prefix of length `min(n, len)` |
| Points.TakeKeepsNearest | merak/candidate_set.py:57-58 | the kept prefix of a sorted list is sorted and ranks no later than every cut point |
| Points.Ids | merak/hnsw.py:195-196 | the ids of a point list, position by position |
| Points.IdsSnoc | merak/hnsw.py:195-196 | appending one more point appends its id |
| PointStore.MemoryPointStore.constructor | merak/point_store.py:28-31 | a fresh store holds exactly the root point under id 0 |
| PointStore.MemoryPointStore.GetPoint | merak/point_store.py:33-34 | returns the stored point exactly when the id is stored, else fails with that id; the neighbour flag is ignored |
| PointStore.MemoryPointStore.SavePoint | merak/point_store.py:36-40 | succeeds exactly when every listed id is already stored; then `p` is stored and each listed point gained `p.id` once per listing at that layer, nothing else changed; otherwise it fails on a missing id with a partial save |
| PointStore.MemoryPointStore.AppendOne | merak/point_store.py:39-40 | one append extends the record of back edges added by one listing |
| PointStore.MemoryPointStore.AppendAtLayer | merak/point_store.py:38-40 | after one layer's loop every listing at that layer has its back edge, or the save stops at the first unstored id |
| PointStore.KeyedAfterUpdate | merak/point_store.py:37 | storing a point under its own id keeps every entry keyed by its id |
| PointStore.StoreFirst | merak/point_store.py:37 | storing `p` alone is the start of the save, with no back edges yet |
| PointStore.AppendOneMore | merak/point_store.py:40 | appending `p.id` to the listed point's layer list records that listing and changes no other entry |
| PointStore.EntryOneMore | merak/point_store.py:40 | the entry that gets the append gains exactly one copy of `p.id` at that layer |
| PointStore.ListOneMore | merak/point_store.py:40 | on one layer's list, listing `k` once more appends `p.id` once more |
| PointStore.EntryNotListed | merak/point_store.py:39-40 | an entry that is not the one listed is unchanged by the step |
| PointStore.BackEdgesCongruent | merak/point_store.py:38-40 | only the listings per layer matter, not how the record is keyed |
| PointStore.PartialIsPartlySaved | merak/point_store.py:38-40 | a save stopped part-way has added no more back edges than a complete save would |
| PointStore.SavedThenGet | merak/point_store.py:36-40 | after saving `p`, its id reads back `p`, and a stored point `p` does not list is unchanged |
| PointStore.SaveTwiceAppendsTwice | merak/point_store.py:36-40 | appends are not deduplicated: saving twice appends `p.id` twice per listing |
| PointStore.SaveKeepsSymmetry | merak/point_store.py:36-40 | saving a new point that lists only stored points keeps the store closed and its edges symmetric by multiplicity |
| PointStore.SaveKeepsClosed | merak/point_store.py:36-40 | saving a point that lists only stored points keeps every listed id stored |
| PointStore.AfterCount | merak/point_store.py:36-40 | after a save, how often `a` lists `b` is `p`'s count for the new point, `p`'s count of `a` for back edges to `p`, and unchanged otherwise |
| Candidates.StopIndex | merak/candidate_set.py:51-53 | where `add` stops in a batch, never past its end |
| Candidates.Fetched | merak/candidate_set.py:50 | the fetched points are the stored points of the ids, in order |
| Candidates.CandidateSet.constructor | merak/candidate_set.py:15-25 | needs a non-empty list; the frontier is the initial points sorted by distance to the target, and their ids are visited |
| Candidates.CandidateSet.Pop | merak/candidate_set.py:44-47 | returns nothing exactly when the frontier is empty; otherwise removes and returns its head, which ranks no later than every remaining point |
| Candidates.CandidateSet.Worker | merak/candidate_set.py:62-64 | fetches the stored point of the id, or fails with the missing id |
| Candidates.CandidateSet.Add | merak/candidate_set.py:49-58 | admits the ids before the first unstored or already-visited one into `visited`; a full batch leaves the nearest `max_size` of old and new points, sorted; an early return leaves the frontier appended, unsorted and uncut; an unstored id fails |
| Candidates.CandidateSet.Admit | merak/candidate_set.py:54-56 | one admission marks the id visited and appends its point |
| Candidates.CandidateSet.SortAndCut | merak/candidate_set.py:57-58 | the frontier becomes the nearest `max_size` of its points, in ascending order |
| Candidates.AddKeepsNearest | merak/candidate_set.py:57-58 | the cut keeps `min(n, len)` points, sorted, no farther than any dropped point, and the kept and dropped points together are the input |
| Candidates.FirstMissing | merak/candidate_set.py:50-64 | the position of the first id the store lacks, every id before it stored; the length when all are stored |
| Candidates.FreshIdsNeverRevisit | merak/candidate_set.py:51-53 | a batch of distinct unvisited ids never takes the early return: `add` stops exactly at the first unstored id |
| Engine.WorstIndex | merak/hnsw.py:68 | the position of the result heap's root: the farthest kept point, the smaller id on a tie |
| Engine.PushPop | merak/hnsw.py:62-69 | a kept point is reported pushed; below `count` the point is always kept; a point farther than all kept ones at `count` is handed straight back, leaving the heap as it was |
| Engine.PushPopKeepsBest | merak/hnsw.py:62-69 | through the heap, the result stays all popped points while fewer than `count`, else the `count` best of them; a heap of size 0 keeps nothing |
| Engine.KeepsBestReplace | merak/hnsw.py:68-69 | replacing the root by a better point keeps the result the best of everything popped |
| Engine.KeepsBestReject | merak/hnsw.py:68-69 | rejecting a point no better than the root keeps the result the best of everything popped |
| Engine.PairLessAsymmetric | merak/hnsw.py:63 | the heap's pair order is asymmetric |
| Engine.PairLessTransitive | merak/hnsw.py:63 | the heap's pair order is transitive |
| Engine.ReplaceMultisets | merak/hnsw.py:68 | replacing the root swaps one kept point for the new one, and the evicted point joins the dropped ones |
| Engine.Unvisited | merak/hnsw.py:71-76 | the collected ids are distinct, each listed and not visited before; every listed id is visited or collected |
| Engine.FirstIndex | merak/hnsw.py:72 | the position of the first listing of an id |
| Engine.FirstIndexUnique | merak/hnsw.py:72 | a listing with no earlier one is the first |
| Engine.FirstIndexSnoc | merak/hnsw.py:72-76 | listing one more id leaves the first listing of every earlier id in place |
| Engine.UnvisitedInOrder | merak/hnsw.py:72-76 | the collected ids come in the order of their first listing |
| Engine.UnvisitedNeighbors | merak/hnsw.py:71-76 | the inner loop collects exactly `Unvisited` of the list, and `visited` grows by exactly those ids |
| Engine.SelectNeighborsSimple | merak/hnsw.py:81-94 | returns `min(m, len)` points in ascending distance, drawn from the input, none farther than a point left out |
| Engine.SelectedAreNearest | merak/hnsw.py:92-94 | sort-then-slice picks a sub-multiset of the input no farther than anything it leaves out |
| Engine.StoredAfterAdd | merak/candidate_set.py:49-58 | a frontier of stored points stays one after admitting a fetched batch |
| Engine.DrawLayer | merak/hnsw.py:169-172 | fails with `EmptyRange` exactly when `layer_factor` is 0 and `max_layer` is positive (the first `randint` raises); otherwise the level is at most `max_layer` and counts the leading zero draws, stopping at the first non-zero one |
| Engine.Expand | merak/hnsw.py:70-77 | the batch is exactly `Unvisited` of the kept point's list and `visited` grows by exactly it; `add` fails exactly at the first unstored id, with the points before it appended; otherwise the frontier is the nearest `max_size` of old and fetched points, sorted; the unvisited stored ids shrink when the batch is non-empty; never fails in a closed store |
| Engine.Batch | merak/hnsw.py:70-76 | the batch of a round: distinct unvisited ids the popped point lists, and all its unvisited listed ids when it stayed in the heap |
| Engine.Advance | merak/hnsw.py:58-77 | one round pops one more point; it fails only on an unstored id; otherwise fewer stored ids are unvisited, or as many with a shorter frontier |
| Engine.Admitted | merak/candidate_set.py:49-58 | a full batch leaves at most `max_size` points, no more than the old and new together |
| Engine.AdmittedMet | merak/candidate_set.py:49-58 | the points `add` admits are entry points or stored points of submitted ids |
| Engine.Run | merak/hnsw.py:58-77 | the loop ends with an empty frontier, or on an unstored id after at least one pop |
| Engine.Round | merak/hnsw.py:58-77 | the loop from a non-empty frontier ends as `Run` does |
| Engine.SearchSpec | merak/hnsw.py:33-79 | the search fails only for an empty entry list (`EmptyCandidates`) or on an unstored id |
| Engine.StartKeeps | merak/hnsw.py:47-57 | the start state satisfies the search invariant |
| Engine.FromRunGrows | merak/hnsw.py:70-77 | a point the search has met stays one as more ids are submitted |
| Engine.FetchedFromRun | merak/candidate_set.py:50 | the stored points of submitted ids are points the search has met |
| Engine.FreshBatchesGrow | merak/hnsw.py:73-77 | a batch of distinct unvisited ids keeps the submissions distinct and apart from the entry ids |
| Engine.AdvanceFresh | merak/hnsw.py:47-77 | a round keeps `visited` exactly the entry ids plus the submitted ones, and the submissions fresh |
| Engine.CutFromRun | merak/candidate_set.py:57-58 | the nearest `n` of met points are met points |
| Engine.AdvancePoppedMet | merak/hnsw.py:59 | a round keeps every popped point an entry point or the stored point of a submitted id |
| Engine.AdvanceFrontierMet | merak/hnsw.py:59-77 | a round keeps every frontier point an entry point or the stored point of a submitted id |
| Engine.ListedGrows | merak/hnsw.py:70-77 | popping a point and submitting ids it lists keeps every submitted id listed by a kept point met before it |
| Engine.ExpandedGrows | merak/hnsw.py:70-76 | popping a point keeps every id a kept point lists visited |
| Engine.AdvanceListed | merak/hnsw.py:70-77 | a round keeps every submitted id listed at the layer by a kept point met before it (reachability from the entry points), and every id a kept point lists visited (completeness) |
| Engine.AdvanceKeeps | merak/hnsw.py:58-77 | a round keeps the search invariant; it never fails with a heap of size 0, nor with stored entry points in a closed store |
| Engine.RunKeeps | merak/hnsw.py:58-77 | the invariant holds when the loop ends; the loop never fails with a heap of size 0, nor with stored entry points in a closed store |
| Engine.MetStored | merak/hnsw.py:58-77 | points the search has met are stored when the entry points are |
| Engine.FinalOrder | merak/hnsw.py:78-79 | the final sort gives the kept points in ascending distance; the slice cuts nothing; it holds `min(count, popped)` points, the best popped ones |
| Engine.SearchSpecFacts | merak/hnsw.py:33-79 | the search's last state satisfies the invariant; the result is the `min(count, popped)` best popped points in ascending distance; the first popped point is the nearest entry point; stored entries give stored points and, in a closed store, a result; width 0 gives an empty result |
| Engine.SearchSpecBasics | merak/hnsw.py:33-79 | a search from a non-empty list returns at most `count` points in ascending distance, some when `count >= 1`, stored when the entries are; a closed store gives a result |
| Engine.StartSearch | merak/hnsw.py:47-57 | `visited` is exactly the entry ids, and the frontier mirrors the start state: the entry points sorted |
| Engine.SearchStep | merak/hnsw.py:58-77 | one iteration ends the loop exactly when the frontier is empty; otherwise its new state and outcome are exactly `Advance` of the old one, and the frontier, `visited` and heap keep mirroring it |
| Engine.SearchLoop | merak/hnsw.py:58-79 | the loop stops in the state `Run` reaches, returning its error or the final heap sorted and cut |
| Engine.Hnsw.constructor | merak/hnsw.py:26-28 | the engine holds its configuration and store |
| Engine.Hnsw.SearchLayer | merak/hnsw.py:33-79 | the result is `SearchSpec`'s; the trace is the loop's last state and satisfies the search invariant (exact `visited`, fresh submissions, provenance and reachability of every point, every listed id of a kept point visited); the result is the `min(count, popped)` best popped points in ascending distance; errors are `EmptyCandidates` or an unstored id; a closed store with stored entries gives a result |
| Engine.Hnsw.SearchLayerResult | merak/hnsw.py:33-79 | the result is `SearchSpec`'s: at most `count` points in ascending distance, stored when the entries are; errors as in `SearchLayer` |
| Engine.DescendOneLayer | merak/hnsw.py:179-182 | one more layer of the descent is the search at that layer from the previous result, unless the descent already failed |
| Engine.DescendErrorStays | merak/hnsw.py:179-182 | an error at some layer is the error of the whole descent |
| Engine.DescendFacts | merak/hnsw.py:179-182 | the descent returns stored points; no layer to descend returns the entry list; otherwise at most `width` points in ascending distance; a closed store with `width >= 1` gives a non-empty result; width 0 gives an empty list after one layer and `EmptyCandidates` after more |
| Engine.Hnsw.Descend | merak/hnsw.py:179-182 | the descent loop of `insert` and (lines 157-160) of `knn_search`: its result is `DescendSpec`'s, the layer searches chained from `top` down to `bottom + 1`, with the facts of `DescendFacts` |
| Engine.Hnsw.KnnSearch | merak/hnsw.py:141-164 | the result is `KnnSpec`'s: the descent from the root with width `high_layer_condidate_count`, the layer-0 search from its result with the count (default `2*k`), and its `k` nearest; at most `k` stored points in ascending distance; a closed store gives a result, non-empty when `k` and the counts are positive; width 0 above layer 1 gives `EmptyCandidates` |
| Engine.LinkEnter | merak/hnsw.py:186 | the linking below `next` starts at the layer `next - 1` |
| Engine.LinkRoundStep | merak/hnsw.py:187-197 | one linking round stops on a failed search or on the heuristic, and otherwise continues from the search result with the selected ids appended at that layer |
| Engine.Hnsw.LinkLayers | merak/hnsw.py:186-197 | the outcome and the linked point are `LinkSpec`'s: at each layer from the drawn level down to 0 the ids of the `degree` nearest search results are appended to `q`'s list there; `q` gains at most `degree` stored ids other than its own per layer; the heuristic flag fails for the missing method |
| Engine.Hnsw.Insert | merak/hnsw.py:166-198 | the linked point and outcome are `InsertLinks`' (root fetch, descent, `LinkSpec`), and nothing is saved on failure; then one `save_point`: success exactly when every listed id is stored; a closed store succeeds unless the heuristic is enabled; a successful insert keeps the store closed and its edges symmetric |
| Engine.WithAppended | merak/hnsw.py:195-196 | appending ids at one layer changes only that layer's list |
| Engine.LinkedNowhere | merak/hnsw.py:186 | before the first layer is linked, no layer has gained neighbours |
| Engine.LinkedBelowAll | merak/hnsw.py:186-197 | the link record from any layer extends down to layer 0 |
| Engine.LinkOneMore | merak/hnsw.py:186-197 | linking one more layer with at most `degree` stored ids extends the record and keeps `q` off its own lists |
| Engine.SelectedIdsStored | merak/hnsw.py:193-196 | ids selected from stored search results are stored and differ from the new point's |
| Engine.AppendIds | merak/hnsw.py:195-196 | the loop appends the selected ids in order at that layer |
| Engine.NotFewerVisited | merak/hnsw.py:72-76 | growing `visited` never increases the unvisited stored ids, and newly visited stored ids decrease them |
| Graph.AddedEdge | merak/graph.py:79-87 | adding an edge creates missing lists and appends each endpoint to the other's list, leaving other lists alone |
| Graph.RemovedEdge | merak/graph.py:101-102 | removing an edge drops the first occurrence from each side's list, leaving other lists alone |
| Graph.Cleared | merak/graph.py:106-108 | clearing `a` empties its list and removes every occurrence of `a` from the other lists |
| Graph.FirstRefused | merak/graph.py:110-111 | the first new neighbour `add_edge` refuses; all earlier ones are accepted |
| Graph.EdgesOkUpdate | merak/graph.py:79-87 | setting one layer's slot to a well-formed map keeps every slot well formed and the others unchanged |
| Graph.LayerSetTwice | merak/graph.py:104-111 | two updates of the same layer's slot compose to the last one |
| Graph.RemovalError | merak/graph.py:95-102 | `remove_edge_by_id` succeeds exactly when the edge is listed between two distinct stored nodes on a layer both reach, and names its error otherwise |
| Graph.LayeredGraph.constructor | merak/graph.py:31-39 | a new graph has top layer -1, no nodes, no entry point and `max_top_layer + 1` unset slots |
| Graph.LayeredGraph.TopLayer | merak/graph.py:41-43 | the top layer bounds every node's top layer, and is -1 exactly for an empty graph |
| Graph.LayeredGraph.SetEntryPoint | merak/graph.py:53-59 | the entry point is set exactly when the node is stored and its top layer is the current top layer |
| Graph.LayeredGraph.AddPoint | merak/graph.py:61-68 | accepts exactly a new id with a top layer in range, adding its node and raising the top layer to the maximum |
| Graph.LayeredGraph.AddEdge | merak/graph.py:70-87 | accepts exactly two distinct stored nodes that reach the layer, then adds the edge on that layer alone |
| Graph.LayeredGraph.RemoveEdgeById | merak/graph.py:94-102 | removes one occurrence from each side exactly when the edge is present, and fails otherwise without change |
| Graph.LayeredGraph.RemoveEdge | merak/graph.py:89-92 | removing by points lowers the edge's multiplicity by one in both directions |
| Graph.LayeredGraph.GetNeighbors | merak/graph.py:113-120 | succeeds exactly for a stored node with a list at a layer it reaches, returning its neighbours' stored points in insertion order |
| Graph.LayeredGraph.SetNeighbors | merak/graph.py:104-111 | clears `p`'s edges at the layer, then links the new neighbours in order up to the first refused one |
| Graph.LayeredGraph.ClearListing | merak/graph.py:106-108 | the removal loop over a copy of the list clears every edge of `p` at that layer |
| Graph.LayeredGraph.LinkAll | merak/graph.py:110-111 | the add loop links the new neighbours in order and stops at the first refused one |
| Graph.LinkedSnoc | merak/graph.py:110-111 | linking one more neighbour is one more `add_edge` |
| Graph.SetNeighborsResult | merak/graph.py:104-111 | after `set_neighbors`, `p`'s list is exactly the new ids in order and former neighbours no longer list `p` |
| Graph.ListedOnceMore | merak/graph.py:110-111 | each added edge appends `p` once more to that neighbour's list |
| Graph.FormerNeighborsForget | merak/graph.py:104-111 | after `set_neighbors`, a node lists `p` exactly as often as the new list names it |
| Graph.ListOfAdded | merak/graph.py:86-87 | `add_edge` extends exactly the two endpoint lists by one id each |
| Graph.ListOfCleared | merak/graph.py:106-108 | clearing empties `p`'s list and drops `p` from every other list |
| Graph.ClearStep | merak/graph.py:107-108 | one removal in the loop advances the clearing by one listing |
| Graph.RemoveFirstNSnoc | merak/graph.py:101-102 | removing one more occurrence is one more `remove` |
| Graph.FirstRefusedNext | merak/graph.py:110-111 | a neighbour before the first refused one is accepted, and the first refused one is not |
| Graph.ClearedByRemovals | merak/graph.py:106-108 | removing each listed edge once clears `p` from the layer, since the edges are symmetric |
| Graph.ClearedFromCounts | merak/graph.py:106-108 | removing as many occurrences as each node is listed clears every occurrence |
| Graph.AddedEdgeOk | merak/graph.py:70-87 | `add_edge` keeps a layer well formed, and raises the multiplicity of that edge only, by one each way |
| Graph.AddedEdgeCount | merak/graph.py:86-87 | an added edge raises its multiplicity by one in each direction and no other |
| Graph.RemovedEdgeOk | merak/graph.py:94-102 | removing a present edge keeps a layer well formed and symmetric |
| Graph.RemovedEdgeCount | merak/graph.py:101-102 | a removed edge lowers its multiplicity by one in each direction and no other |
| Cache.Empty | merak/point_cache.py:10-12 | the empty cache is well formed at any capacity |
| Cache.DropBack | merak/point_cache.py:18 | `popitem(last=True)` removes the back key and its entry |
| Cache.DropBackWf | merak/point_cache.py:17-18 | dropping from a well-formed cache leaves room for one more |
| Cache.StoredWf | merak/point_cache.py:19 | storing a held key, or a new one with room left, keeps the cache well formed |
| Cache.PutKeepsBound | merak/point_cache.py:15-20 | `put` fails exactly when the capacity is below 1, and otherwise never exceeds the capacity |
| Cache.PutThenGet | merak/point_cache.py:15-29 | after `put`, `key` reads back the new value, and another key reads as before unless it was the evicted back key |
| Cache.PutPlacement | merak/point_cache.py:17-19 | a full cache evicts its back key first; a key still held keeps its place, and a new key goes to the back |
| Cache.PutOfHeldKeyEvicts | merak/point_cache.py:17-19 | putting a held key into a full cache still evicts the back key and shrinks the cache |
| Cache.GetMovesToFront | merak/point_cache.py:22-29 | `get` of a held key returns its value and moves it to the front, keeping the other keys in order; an absent key returns nothing and changes nothing |
| Cache.WithoutDistinct | merak/point_cache.py:25 | taking a held key out of a duplicate-free order removes exactly that key |
| Cache.WithoutAbsent | merak/point_cache.py:25 | taking out a key not in the order changes nothing |
| Cache.NewestEvictedNext | merak/point_cache.py:17-19 | a new key put into a cache it fills is the very next key evicted |
| Cache.PutEvictsRecentKey | merak/point_cache.py:15-19 | at capacity 2, putting 1, 2, 3 evicts 2 and keeps 1 |
| Cache.ToFrontByRecency | merak/point_cache.py:25 | moving a key to the front with a fresh stamp keeps the order by recency |
| Cache.LruPutEvictsLeastRecent | merak/point_cache.py:15-20 | the intended `put` keeps the cache bounded and ordered by recency, with `key` at the front holding its value; any evicted key is the least recently used |
| Cache.LruPutHeld | merak/point_cache.py:15-20 | the intended `put` of a held key evicts nothing and refreshes its recency |
| Cache.LruPutEvicting | merak/point_cache.py:17-19 | the intended `put` into a full cache replaces exactly the least recently used key |
| Cache.WithoutKeepsOrder | merak/point_cache.py:25 | taking a key out of a recency order leaves a recency order |
| Cache.WithoutMember | merak/point_cache.py:25 | taking a key out adds no key |
| Cache.GetRefreshesRecency | merak/point_cache.py:22-29 | `get` of a held key makes it the most recently used, keeping the order by recency |
| Cache.NodeCache.constructor | merak/point_cache.py:10-13 | a new cache is empty with the given capacity |
| Cache.NodeCache.Put | merak/point_cache.py:15-20 | the cache as written: the new state is `put` as written, and a failed `put` changes nothing |
| Cache.NodeCache.Get | merak/point_cache.py:22-29 | returns the held value, or nothing, and moves a held key to the front |
| Cache.LruCache.constructor | merak/point_cache.py:10-13 | a new cache is empty with the given capacity |
| Cache.LruCache.Put | merak/point_cache.py:15-20 | the intended cache: the new state is the least-recently-used `put`, and an evicted key was used less recently than every other key |
| Cache.LruCache.Get | merak/point_cache.py:22-29 | returns the held value, or nothing, and moves a held key to the front as the most recently used |
| ElementHeap.ElementIdentity | hnsw/element.py:11-15 | elements are equal exactly when their coordinates are, and exactly when their hashes are |
| ElementHeap.DistanceSymmetric | hnsw/element.py:17-18 | distance is symmetric |
| ElementHeap.InsertByKey | hnsw/element.py:42-46 | a push keeps the heap in key order and adds exactly the one element |
| ElementHeap.HeadStaysFirst | hnsw/element.py:42-46 | an element no later than the rest stays first after a push behind it |
| ElementHeap.Elements.constructor | hnsw/element.py:25-30 | the heap holds exactly the given elements, in key order for its mode |
| ElementHeap.Elements.Push | hnsw/element.py:42-46 | `push` inserts by distance in nearest mode, by negated distance in furthest mode |
| ElementHeap.Elements.PopNearest | hnsw/element.py:48-50 | fails in furthest mode or on an empty heap; otherwise removes and returns an element no farther than any remaining one |
| ElementHeap.Elements.PopFurthest | hnsw/element.py:58-60 | fails in nearest mode or on an empty heap; otherwise removes and returns an element no nearer than any remaining one |
| ElementHeap.Elements.Pop | hnsw/element.py:50 | `heappop` removes one element of least key, one fewer remaining |
| ElementHeap.Elements.Furthest | hnsw/element.py:62-66 | returns, without removing, a held element at least as far as every other one; fails on an empty heap |
| ElementHeap.Elements.Nearest | hnsw/element.py:52-56 | returns, without removing, a held element no farther than every other one; fails on an empty heap |
| Draft.SelectNeighborsSimple | hnsw/hnsw.py:49-65 | fails exactly when there are fewer than `m` candidates; otherwise returns `m` elements in ascending distance, the nearest `m` of the candidates |
| Draft.TakeNearest | hnsw/hnsw.py:64-65 | popping the nearest remaining element extends the nearest prefix |
| Draft.MemberOfSum | hnsw/hnsw.py:64-65 | what is popped and what remains came from the heap |
| Draft.AllNeighbors | hnsw/hnsw.py:88-89 | every collected id is a neighbour of a candidate |
| Draft.Extended | hnsw/hnsw.py:89-91 | extending pushes only elements not already held: the pool becomes the union |
| Draft.Pool | hnsw/hnsw.py:84-91 | every element of the pool is a candidate or, with `extend`, a neighbour of one |
| Draft.Extend | hnsw/hnsw.py:87-91 | the extend loop leaves the candidate heap holding exactly the extended pool |
| Draft.AllNeighborsSnoc | hnsw/hnsw.py:88-89 | one more candidate contributes its neighbours |
| Draft.ExtendWith | hnsw/hnsw.py:89-91 | pushing one candidate's new neighbours grows the heap to the extended pool |
| Draft.ExtendedAppend | hnsw/hnsw.py:88-91 | extending by two lists in turn is extending by their concatenation |
| Draft.SelectNeighborsHeuristic | hnsw/hnsw.py:68-105 | returns at most `m` pool elements in ascending distance, the first being the pool's nearest; without `keep` at most one; with `keep` exactly the `min(m, pool)` nearest; some element whenever `m >= 1` and the pool is non-empty |
| Draft.SelectFrom | hnsw/hnsw.py:93-105 | the two loops on a heap of the pool give the result `SelectNeighborsHeuristic` promises |
| Draft.AdmittedSome | hnsw/hnsw.py:93-99 | after the first loop, a non-empty pool and `m >= 1` leave an admitted element |
| Draft.Admit | hnsw/hnsw.py:93-99 | the main loop admits at most one element, the nearest, and discards the rest it examines |
| Draft.AdmitFirst | hnsw/hnsw.py:96-97 | an empty result admits the nearest remaining candidate |
| Draft.DiscardStep | hnsw/hnsw.py:98-99 | a candidate not strictly nearer than the admitted one is discarded, keeping the parts ordered |
| Draft.Backfill | hnsw/hnsw.py:101-103 | with `keep`, discarded elements fill the result nearest first until `m` or none are left |
| Draft.BackfillStep | hnsw/hnsw.py:102-103 | one backfilled element keeps the parts ordered |
| Draft.Conclude | hnsw/hnsw.py:105 | the returned elements are drawn from the pool |

## Left out

- The remote Nebula store (`NebulaPointStore` in merak/point_store.py) and the database
  client are I/O against an external service. They are not part of this model.
- Concurrency is not modelled. The thread pool that fetches a batch in `add` becomes an
  in-order sequential fetch. The reader/writer lock of the node cache is dropped, and the
  model is single-threaded.
- Floating point is not modelled. The Euclidean norm is replaced by the squared distance
  over integer coordinates, which orders points the same way. The root's `inf` is a
  separate `Infinite` value. Vectors of different lengths are compared over their common
  prefix.
- Randomness is not modelled. The level draws in `insert` are a sequence of draws
  (`Engine.DrawLayer`), and `Engine.Hnsw.Insert` takes the drawn level as a parameter.
  A draw that fails with `EmptyRange` stands for an `insert` that raises before it reads
  or changes the store.
- Points.SortByDistance: ties on distance are broken by the smaller id. Python's stable sort
  keeps equal-distance points in arrival order, so the order among equal-distance points
  is not captured. The result heap of `__search_layer` does compare ties by id, through
  `Point.__gt__`, and `Engine.PairLess` models that exactly.
- Points.IdentityConsistent: the type assertions in `__eq__` and `__gt__` are not
  modelled, because Dafny's typing rules out a non-point operand.
- PointStore.MemoryPointStore.SavePoint requires that `p` not list its own id. The source
  would keep appending to the list it iterates and never finish.
- Engine.Hnsw.Insert requires a new id, for the same reason: a re-inserted point could list
  itself.
- Candidates.CandidateSet.Pop requires a sorted frontier. The frontier models the heap
  as an ascending list, and only the early return of `add` leaves it unsorted. From
  `__search_layer` that return cannot happen (`Candidates.FreshIdsNeverRevisit`).
- `max_degree` is carried in `Engine.Config` but never consulted, as in the source.
  Degree-bound pruning and entry-point maintenance do not exist in merak's engine.
- The heuristic branch of `insert` calls `__select_neighbors_heuristic`, which exists only
  as commented-out code. It is modelled as a failure (`MissingMethod`). The heuristic
  itself is modelled from the older draft (`Draft.SelectNeighborsHeuristic`).
- Sorting the caller's list in place in `__select_neighbors_simple` is not modelled.
  Lists are values, so the caller's list is not changed, and aliasing is not captured.
- The cache is created as a plain `dict` but used through `OrderedDict` calls. The
  ordered-map behaviour those calls imply is modelled.
- `Elements.__contains__` compares an element with (distance, element) pairs, and `values`
  returns the pairs. Membership is modelled as intended, over the elements, and `values`
  as the elements.
- Equal distances make `heapq` compare `Element`s, which have no `<`, and would raise.
  Ties in `Elements` are ordered abstractly: any order of equal keys is allowed.
- `Elements.nearest()` is shadowed by the `nearest` attribute. `ElementHeap.Elements.Nearest`
  models the intended peek. The heuristic's loop calls `nearest()` without removing the
  element, which would loop forever, so `Draft.Admit` removes it as `pop_nearest` does.
- The `extend` step takes the layer's adjacency as a map parameter from an element to its
  neighbours. The draft's `LayeredGraph` (hnsw/layered_graph.py) cannot be constructed and
  is not part of this model.
- The older draft's `search_layer` and `insert` use undefined names and are superseded by
  merak's engine. They are not part of this model.
- ElementHeap.Elements.Length (`__len__`) is the item count and carries no contract of its
  own. The length arithmetic of push and pop is stated on `Push`, `Pop` and the
  constructor.
- Negative `m`, layer, count or `layer_factor` values are not modelled: these are `nat`.
  The one exception is `Graph.LayeredGraph.AddPoint`, whose top layer is an `int` so that
  the range check is modelled. A negative `layer_factor` would raise in `randint` as 0 does.
- Data generation, embeddings, examples and the outdated tests are not part of this model.

## Findings

| source | as written | input that shows it | evidently intended | confidence | as-written member | corrected member |
|---|---|---|---|---|---|---|
| merak/point_cache.py:17-19 | `put` evicts with `popitem(last=True)`, the back of the order, and a new key is stored at the back. So the key just put is the next one evicted, and keys refreshed by `get` (moved to the front) are never evicted first. | capacity 2: `put(1)`, `put(2)`, `put(3)` evicts 2 and keeps 1, though 1 is the least recently used | a least-recently-used cache: evict the least recently used key, and keep a held key when it is put again | not executed | Cache.PutEvictsRecentKey | Cache.LruPutEvictsLeastRecent |

`Cache.NewestEvictedNext` states the general form of the as-written behaviour. `Cache.LruCache`
uses the corrected policy. Its `Put` is proved to evict only a key used less recently than
every other key.
