/** The HNSW engine over a point store: the beam search of one layer, simple neighbour
    selection, the k-nearest search that descends the layers from the root, and
    insertion, which links a new point at every layer up to its drawn level. */
module Engine {
  import opened Common
  import opened Points
  import opened PointStore
  import opened Candidates

  /** `HNSWConfig`. `maxDegree` is carried but never consulted by the engine. */
  datatype Config = Config(
    rootPoint: nat,
    degree: nat,
    maxDegree: nat,
    layerFactor: nat,
    maxLayer: nat,
    candidateSetSize: nat,
    insertCandidateSetSize: nat,
    enableHeuristic: bool)

  const DefaultConfig: Config := Config(0, 5, 10, 4, 5, 100, 1, false)

  /** Every point of `s` is the entry the store holds under its id. */
  ghost predicate AllStored(s: seq<Point>, m: map<nat, Point>)
  {
    forall x :: x in s ==> x.id in m && m[x.id] == x
  }

  /** The order of the result heap's `(-distance, point)` pairs: `a` comes first when it
      is farther from `q`, or as far and of smaller id. The heap's root is the pair that
      comes first, the one `heappushpop` evicts. */
  predicate PairLess(a: Point, b: Point, q: Point)
  {
    DistLess(Dist(b, q), Dist(a, q)) || (Dist(a, q) == Dist(b, q) && a.id < b.id)
  }

  /** The position of the heap's root: a pair no other pair comes before. */
  function WorstIndex(s: seq<Point>, q: Point): (i: nat)
    requires s != []
    ensures i < |s|
    ensures forall j :: 0 <= j < |s| ==> !PairLess(s[j], s[i], q)
  {
    if |s| == 1 then 0
    else
      var j := 1 + WorstIndex(s[1..], q);
      assert forall k :: 1 <= k < |s| ==> s[k] == s[1..][k - 1];
      if PairLess(s[j], s[0], q) then j else 0
  }

  /** `kept` is drawn from `all`, and every point of `all` left out comes before (is no
      better than) every kept point: `kept` holds the best of `all`. */
  ghost predicate KeepsBest(kept: seq<Point>, all: seq<Point>, q: Point)
  {
    && multiset(kept) <= multiset(all)
    && forall x, y :: x in multiset(kept) && y in multiset(all) - multiset(kept) ==> !PairLess(x, y, q)
  }

  /** The result heap after the points `popped` went through it: all of them while fewer
      than `count`, else the `count` best. */
  ghost predicate HeapInvariant(result: seq<Point>, popped: seq<Point>, count: nat, q: Point)
  {
    && |result| == (if |popped| < count then |popped| else count)
    && (|popped| <= count ==> result == popped)
    && KeepsBest(result, popped, q)
  }

  /** One step of the result heap: `heappush` while it holds fewer than `count` pairs,
      `heappushpop` after that. The flag says whether the point popped from the frontier
      stayed in the heap (`x[1] != p`), and so whether its neighbours are expanded. */
  function PushPop(result: seq<Point>, p: Point, count: nat, q: Point): (r: (seq<Point>, bool))
    ensures r.1 ==> p in r.0
    ensures |result| < count ==> r.1
    ensures |result| >= count && (forall x :: x in result ==> PairLess(p, x, q)) ==> r == (result, false)
  {
    if |result| < count then (result + [p], true)
    // `heappushpop` on an empty heap hands the pair straight back.
    else if result == [] then (result, false)
    else
      var w := WorstIndex(result, q);
      if PairLess(result[w], p, q) then
        assert result[w := p][w] == p && result[w] in result;
        (result[w := p], result[w].id != p.id)
      else (result, false)
  }

  /** Through the heap, the result stays the best `count` of the points popped so far,
      and a heap of size 0 keeps nothing. */
  lemma PushPopKeepsBest(result: seq<Point>, popped: seq<Point>, p: Point, count: nat, q: Point)
    requires HeapInvariant(result, popped, count, q)
    ensures HeapInvariant(PushPop(result, p, count, q).0, popped + [p], count, q)
    ensures count == 0 ==> !PushPop(result, p, count, q).1
  {
    if |result| >= count && result != [] {
      var w := WorstIndex(result, q);
      if PairLess(result[w], p, q) {
        KeepsBestReplace(result, popped, p, q);
      } else {
        KeepsBestReject(result, popped, p, q);
      }
    }
  }

  /** Evicting the heap's root for a pair that comes after it keeps the best. */
  lemma KeepsBestReplace(kept: seq<Point>, all: seq<Point>, p: Point, q: Point)
    requires KeepsBest(kept, all, q) && kept != []
    requires PairLess(kept[WorstIndex(kept, q)], p, q)
    ensures KeepsBest(kept[WorstIndex(kept, q) := p], all + [p], q)
  {
    var w := WorstIndex(kept, q);
    var out := kept[w];
    var kept' := kept[w := p];
    var left := multiset(all) - multiset(kept);
    ReplaceMultisets(kept, all, w, p);
    forall x, y | x in multiset(kept') && y in multiset(all + [p]) - multiset(kept')
      ensures !PairLess(x, y, q)
    {
      assert y == out || y in left;
      if x != p {
        assert x in multiset(kept) by { assert x in multiset(kept) - multiset{out} + multiset{p}; }
        var i :| 0 <= i < |kept| && kept[i] == x;
        assert !PairLess(kept[i], kept[w], q);
      } else if y == out {
        PairLessAsymmetric(out, p, q);
      } else {
        assert out in multiset(kept);
        assert !PairLess(out, y, q);
        if PairLess(p, y, q) {
          PairLessTransitive(out, p, y, q);
        }
      }
    }
  }

  lemma PairLessAsymmetric(a: Point, b: Point, q: Point)
    requires PairLess(a, b, q)
    ensures !PairLess(b, a, q)
  {
  }

  /** Replacing the entry at `w` by `p` swaps it for `p` among the kept points, and puts
      it among the left-out ones of the extended stream. */
  lemma ReplaceMultisets(kept: seq<Point>, all: seq<Point>, w: nat, p: Point)
    requires w < |kept| && multiset(kept) <= multiset(all)
    ensures multiset(kept[w := p]) == multiset(kept) - multiset{kept[w]} + multiset{p}
    ensures multiset(kept[w := p]) <= multiset(all + [p])
    ensures multiset(all + [p]) - multiset(kept[w := p]) ==
            (multiset(all) - multiset(kept)) + multiset{kept[w]}
  {
    assert kept[w] in multiset(kept);
    assert multiset(all + [p]) == multiset(all) + multiset{p};
  }

  /** The pair order is transitive. */
  lemma PairLessTransitive(a: Point, b: Point, c: Point, q: Point)
    requires PairLess(a, b, q) && PairLess(b, c, q)
    ensures PairLess(a, c, q)
  {
  }

  /** A pair that does not come after the heap's root comes straight back out. */
  lemma KeepsBestReject(kept: seq<Point>, all: seq<Point>, p: Point, q: Point)
    requires KeepsBest(kept, all, q) && kept != []
    requires !PairLess(kept[WorstIndex(kept, q)], p, q)
    ensures KeepsBest(kept, all + [p], q)
  {
    assert multiset(all + [p]) == multiset(all) + multiset{p};
    assert multiset(all + [p]) - multiset(kept) == (multiset(all) - multiset(kept)) + multiset{p};
    forall x, y | x in multiset(kept) && y in multiset(all + [p]) - multiset(kept)
      ensures !PairLess(x, y, q)
    {
      assert x in kept;
    }
  }

  /** The ids of `ns` not in `visited`, each once: what the inner loop of the search
      collects from a point's list. */
  function Unvisited(ns: seq<nat>, visited: set<nat>): (ids: seq<nat>)
    ensures forall i, j :: 0 <= i < j < |ids| ==> ids[i] != ids[j]
    ensures forall i :: 0 <= i < |ids| ==> ids[i] in ns && ids[i] !in visited
    ensures forall n :: n in ns ==> n in visited || n in ids
  {
    if ns == [] then []
    else
      var init := ns[..|ns| - 1];
      var n := ns[|ns| - 1];
      var before := Unvisited(init, visited);
      assert ns == init + [n];
      if n in visited || n in before then before else before + [n]
  }

  /** The position of the first listing of `x` in `s`. */
  function FirstIndex(s: seq<nat>, x: nat): (i: nat)
    requires x in s
    ensures i < |s| && s[i] == x && x !in s[..i]
  {
    if s[0] == x then 0
    else
      var i := 1 + FirstIndex(s[1..], x);
      assert s[..i] == [s[0]] + s[1..][..i - 1];
      i
  }

  /** A listing with no earlier one is the first. */
  lemma FirstIndexUnique(s: seq<nat>, x: nat, i: nat)
    requires i < |s| && s[i] == x && x !in s[..i]
    ensures FirstIndex(s, x) == i
  {
  }

  /** Listing one more id leaves the first listing of every earlier id where it was. */
  lemma FirstIndexSnoc(init: seq<nat>, n: nat, x: nat)
    requires x in init
    ensures FirstIndex(init + [n], x) == FirstIndex(init, x) < |init|
  {
    var k := FirstIndex(init, x);
    assert (init + [n])[..k] == init[..k];
    FirstIndexUnique(init + [n], x, k);
  }

  /** The unvisited ids come in the order of their first listing. */
  lemma {:induction false} UnvisitedInOrder(ns: seq<nat>, visited: set<nat>)
    ensures forall i, j :: 0 <= i < j < |Unvisited(ns, visited)| ==>
              FirstIndex(ns, Unvisited(ns, visited)[i]) < FirstIndex(ns, Unvisited(ns, visited)[j])
  {
    if ns != [] {
      var init := ns[..|ns| - 1];
      var n := ns[|ns| - 1];
      var before := Unvisited(init, visited);
      var ids := Unvisited(ns, visited);
      UnvisitedInOrder(init, visited);
      assert ns == init + [n];
      if !(n in visited || n in before) {
        assert n !in init;
        assert ns[..|init|] == init;
        FirstIndexUnique(ns, n, |init|);
      }
      forall i, j | 0 <= i < j < |ids| ensures FirstIndex(ns, ids[i]) < FirstIndex(ns, ids[j]) {
        assert ids[i] == before[i];
        FirstIndexSnoc(init, n, before[i]);
        if j < |before| {
          assert ids[j] == before[j];
          FirstIndexSnoc(init, n, before[j]);
        } else {
          assert ids[j] == n;
        }
      }
    }
  }

  /** The inner loop of the search: the ids `p` lists at the layer that were not yet
      visited, and the visited set with them added. */
  method UnvisitedNeighbors(ns: seq<nat>, visited: set<nat>) returns (ids: seq<nat>, seen: set<nat>)
    ensures ids == Unvisited(ns, visited)
    ensures seen == visited + Elems(ids)
  {
    ids := [];
    seen := visited;
    for i := 0 to |ns|
      invariant ids == Unvisited(ns[..i], visited)
      invariant seen == visited + Elems(ids)
    {
      assert ns[..i + 1][..i] == ns[..i];
      if ns[i] !in seen {
        seen := seen + {ns[i]};
        ids := ids + [ns[i]];
      }
    }
    assert ns[..|ns|] == ns;
  }

  /** `__select_neighbors_simple`: the points in ascending distance to `q`, cut to `m`. */
  function SelectNeighborsSimple(q: Point, points: seq<Point>, m: nat): (r: seq<Point>)
    ensures |r| == if m < |points| then m else |points|
    ensures Sorted(r, q)
    ensures multiset(r) <= multiset(points)
    ensures forall x, y :: x in multiset(r) && y in multiset(points) - multiset(r) ==> NearerEq(x, y, q)
  {
    SelectedAreNearest(q, points, m);
    Take(SortByDistance(points, q), m)
  }

  lemma SelectedAreNearest(q: Point, points: seq<Point>, m: nat)
    ensures var r := Take(SortByDistance(points, q), m);
      && multiset(r) <= multiset(points)
      && forall x, y :: x in multiset(r) && y in multiset(points) - multiset(r) ==> NearerEq(x, y, q)
  {
    var sorted := SortByDistance(points, q);
    var r := Take(sorted, m);
    var dropped := sorted[|r|..];
    AddKeepsNearest(points, m, q);
    assert multiset(points) - multiset(r) == multiset(dropped);
    forall x, y | x in multiset(r) && y in multiset(points) - multiset(r)
      ensures NearerEq(x, y, q)
    {
      assert x in r;
      assert y in dropped;
    }
  }

  /** After a completed `add`, a frontier of stored points still holds stored points. */
  lemma StoredAfterAdd(pts: seq<Point>, ids: seq<nat>, m: map<nat, Point>, q: Point, n: nat)
    requires KeyedById(m) && AllStored(pts, m)
    requires forall i :: 0 <= i < |ids| ==> ids[i] in m
    ensures AllStored(Take(SortByDistance(pts + Fetched(ids, m), q), n), m)
  {
    var all := pts + Fetched(ids, m);
    var sorted := SortByDistance(all, q);
    forall x | x in Take(sorted, n) ensures x.id in m && m[x.id] == x {
      assert x in multiset(all);
      assert x in all;
    }
  }

  /** `random.randint(0, layer_factor - 1) == 0`, drawn until it fails or the top layer
      is reached; `draws` are the successive values the generator returns. A layer factor
      of 0 makes the range empty, so the first draw raises, unless the top layer is 0 and
      nothing is drawn. */
  method DrawLayer(config: Config, draws: seq<nat>) returns (r: Result<nat>)
    requires |draws| >= config.maxLayer
    ensures r.Err? <==> config.layerFactor == 0 && config.maxLayer > 0
    ensures r.Err? ==> r.error == EmptyRange
    ensures r.Ok? ==> r.value <= config.maxLayer
    ensures r.Ok? ==> forall i :: 0 <= i < r.value ==> draws[i] == 0
    ensures r.Ok? ==> r.value < config.maxLayer ==> draws[r.value] != 0
  {
    var layer := 0;
    while layer < config.maxLayer
      invariant layer <= config.maxLayer
      invariant forall i :: 0 <= i < layer ==> draws[i] == 0
      invariant layer > 0 ==> config.layerFactor > 0
    {
      if config.layerFactor == 0 {
        return Err(EmptyRange);
      }
      if draws[layer] != 0 {
        break;
      }
      layer := layer + 1;
    }
    r := Ok(layer);
  }

  /** The lists of `q2` extend those of `q` at `layer` by at most `degree` ids, each a key
      of `m` other than `q`'s own id. */
  ghost predicate GrownAt(q: Point, q2: Point, layer: nat, degree: nat, m: map<nat, Point>)
  {
    var before := NeighborsAt(q, layer);
    var after := NeighborsAt(q2, layer);
    && |before| <= |after| <= |before| + degree
    && after[..|before|] == before
    && forall i :: |before| <= i < |after| ==> after[i] in m && after[i] != q.id
  }

  /** The expansion of a point `p` that stayed in the result heap: its unvisited
      neighbour ids at `layer` enter `visited` and go to the frontier as one batch. The
      batch is fresh, so the frontier never takes its early return: it either admits the
      whole batch or stops at the first id the store does not hold. */
  method Expand(frontier: CandidateSet, p: Point, layer: nat, visited: set<nat>, ghost stored: bool)
    returns (added: Outcome, seen: set<nat>, ids: seq<nat>)
    requires frontier.Valid() && frontier.visited <= visited
    requires stored ==> AllStored(frontier.points, frontier.store.points) && AllStored([p], frontier.store.points)
    modifies frontier
    ensures ids == Unvisited(NeighborsAt(p, layer), visited)
    ensures seen == visited + Elems(ids)
    ensures frontier.Valid() && frontier.visited <= seen
    ensures var m := frontier.store.points; var k := FirstMissing(ids, m);
      && (added.Fail? <==> k < |ids|)
      && (added.Fail? ==> added.error == NotFound(ids[k]))
      && (added.Fail? ==> frontier.points == old(frontier.points) + Fetched(ids[..k], m))
      && (added.Pass? ==> frontier.Ordered())
      && (added.Pass? ==>
            frontier.points == Take(SortByDistance(old(frontier.points) + Fetched(ids, m), frontier.target),
                                    frontier.maxSize))
    ensures var keys := frontier.store.points.Keys; |keys - seen| <= |keys - visited|
    ensures added.Pass? && ids != [] ==>
              var keys := frontier.store.points.Keys; |keys - seen| < |keys - visited|
    ensures added.Pass? && ids == [] ==> |frontier.points| <= old(|frontier.points|)
    ensures added.Fail? ==> added.error.NotFound? && added.error.id !in frontier.store.points
    ensures stored && added.Pass? ==> AllStored(frontier.points, frontier.store.points)
    ensures stored && Closed(frontier.store.points) ==> added.Pass?
  {
    var store := frontier.store;
    var ns := NeighborsAt(p, layer);
    ids, seen := UnvisitedNeighbors(ns, visited);
    if stored && Closed(store.points) {
      assert p in [p];
      forall i | 0 <= i < |ids| ensures ids[i] in store.points {
        assert ids[i] in NeighborsAt(store.points[p.id], layer);
      }
    }
    FreshIdsNeverRevisit(ids, frontier.visited, store.points);
    ghost var before := frontier.points;
    added := frontier.Add(ids);
    if added.Pass? {
      if stored {
        StoredAfterAdd(before, ids, store.points, frontier.target, frontier.maxSize);
      }
      if ids != [] {
        assert ids[0] in store.points && ids[0] in seen && ids[0] !in visited;
      }
    }
    NotFewerVisited(store.points.Keys, visited, seen, ids);
  }

  function IdSet(s: seq<Point>): set<nat>
  {
    set i | 0 <= i < |s| :: s[i].id
  }

  /** The state of `__search_layer` between rounds, with its history: the frontier, the
      result heap and the visited ids; the points popped so far and, for each, whether it
      stayed in the heap; the ids handed to the frontier so far and, for each, the position
      in `popped` of the point whose list it came from. */
  datatype Search = Search(frontier: seq<Point>, result: seq<Point>, visited: set<nat>,
                           popped: seq<Point>, kept: seq<bool>,
                           submitted: seq<nat>, origin: seq<nat>)

  /** Before the first round: the entry candidates, sorted, are the frontier and their ids
      are visited. */
  function Start(candidates: seq<Point>, q: Point): Search
  {
    Search(SortByDistance(candidates, q), [], IdSet(candidates), [], [], [], [])
  }

  /** The batch a round hands to the frontier: the unvisited ids the popped point lists
      at `layer` if it stayed in the heap, else nothing. */
  function Batch(s: Search, q: Point, count: nat, layer: nat): (ids: seq<nat>)
    requires s.frontier != []
    ensures forall i, j :: 0 <= i < j < |ids| ==> ids[i] != ids[j]
    ensures forall i :: 0 <= i < |ids| ==> ids[i] !in s.visited && ids[i] in NeighborsAt(s.frontier[0], layer)
    ensures PushPop(s.result, s.frontier[0], count, q).1 ==>
              forall n :: n in NeighborsAt(s.frontier[0], layer) ==> n in s.visited || n in ids
  {
    var p := s.frontier[0];
    if PushPop(s.result, p, count, q).1 then Unvisited(NeighborsAt(p, layer), s.visited) else []
  }

  /** One round of `__search_layer`'s loop on a non-empty frontier: pop its head, pass it
      through the result heap and, if it stayed there, hand its unvisited neighbour ids at
      `layer` to the frontier as one batch. The error is that of the first batch id the
      store lacks; the frontier then holds the points admitted before it, unsorted. */
  function Advance(s: Search, m: map<nat, Point>, q: Point, count: nat, layer: nat)
    : (r: (Search, Option<Error>))
    requires s.frontier != []
    ensures |r.0.popped| == |s.popped| + 1
    ensures r.1.Some? ==> r.1.value.NotFound? && r.1.value.id !in m
    ensures r.1.None? ==>
              |m.Keys - r.0.visited| < |m.Keys - s.visited| ||
              (r.0.visited == s.visited && |r.0.frontier| < |s.frontier|)
  {
    var p := s.frontier[0];
    var heap := PushPop(s.result, p, count, q);
    var ids := Batch(s, q, count, layer);
    var k := FirstMissing(ids, m);
    var rest := s.frontier[1..];
    var visited := s.visited + Elems(ids);
    var next := Search(if heap.1 then Admitted(rest, ids, m, q, count) else rest, heap.0, visited,
                       s.popped + [p], s.kept + [heap.1], s.submitted + ids,
                       s.origin + Repeat(|s.popped|, |ids|));
    NotFewerVisited(m.Keys, s.visited, visited, ids);
    assert ids == [] ==> visited == s.visited;
    assert ids != [] && k == |ids| ==> ids[0] in m && ids[0] in visited && ids[0] !in s.visited;
    (next, if k < |ids| then Some(NotFound(ids[k])) else None)
  }

  /** The frontier after `add` of a fresh batch: the nearest `count` of the old and the
      fetched points when the store holds every id, else the old points followed by those
      fetched before the first missing id. */
  function Admitted(rest: seq<Point>, ids: seq<nat>, m: map<nat, Point>, q: Point, count: nat): (r: seq<Point>)
    ensures FirstMissing(ids, m) == |ids| ==> |r| <= count && |r| <= |rest| + |ids|
  {
    var k := FirstMissing(ids, m);
    if k < |ids| then rest + Fetched(ids[..k], m)
    else Take(SortByDistance(rest + Fetched(ids, m), q), count)
  }

  /** The points `add` admits are points the search has met, when the batch was submitted. */
  lemma AdmittedMet(rest: seq<Point>, ids: seq<nat>, m: map<nat, Point>, q: Point, count: nat,
                    candidates: seq<Point>, submitted: seq<nat>)
    requires KeyedById(m)
    requires forall x :: x in rest ==> FromRun(x, candidates, submitted, m)
    requires forall i :: 0 <= i < |ids| ==> ids[i] in submitted
    ensures forall x :: x in Admitted(rest, ids, m, q, count) ==> FromRun(x, candidates, submitted, m)
  {
    var k := FirstMissing(ids, m);
    if k < |ids| {
      FetchedFromRun(ids[..k], m, candidates, submitted);
    } else {
      FetchedFromRun(ids, m, candidates, submitted);
      CutFromRun(rest + Fetched(ids, m), q, count, candidates, submitted, m);
    }
  }

  /** The rounds of `__search_layer`'s loop from `s` until the frontier is empty or a
      round fails: the last state, and the error if one ended the loop. */
  function Run(s: Search, m: map<nat, Point>, q: Point, count: nat, layer: nat): (r: (Search, Option<Error>))
    ensures r.1.None? ==> r.0.frontier == []
    ensures r.1.Some? ==> r.1.value.NotFound? && r.1.value.id !in m && r.0.popped != []
    decreases |m.Keys - s.visited|, |s.frontier|, 1
  {
    if s.frontier == [] then (s, None)
    else Round(s, m, q, count, layer)
  }

  function Round(s: Search, m: map<nat, Point>, q: Point, count: nat, layer: nat): (r: (Search, Option<Error>))
    requires s.frontier != []
    ensures r.1.None? ==> r.0.frontier == []
    ensures r.1.Some? ==> r.1.value.NotFound? && r.1.value.id !in m && r.0.popped != []
    decreases |m.Keys - s.visited|, |s.frontier|, 0
  {
      var t := Advance(s, m, q, count, layer);
      if t.1.Some? then t else Run(t.0, m, q, count, layer)
  }

  /** What `__search_layer` returns: `EmptyCandidates` for no entry points (the candidate
      set reads `points[-1]`), the error of a failed round, or else the final heap in
      ascending distance, cut to `count`. */
  function SearchSpec(q: Point, candidates: seq<Point>, count: nat, layer: nat, m: map<nat, Point>)
    : (r: Result<seq<Point>>)
    ensures r.Err? ==> (candidates == [] && r.error == EmptyCandidates) ||
                       (r.error.NotFound? && r.error.id !in m)
  {
    if candidates == [] then Err(EmptyCandidates)
    else
      var run := Run(Start(candidates, q), m, q, count, layer);
      if run.1.Some? then Err(run.1.value) else Ok(Take(SortByDistance(run.0.result, q), count))
  }

  /** A point the search has met: an entry candidate, or the stored point of a submitted id. */
  ghost predicate FromRun(x: Point, candidates: seq<Point>, submitted: seq<nat>, m: map<nat, Point>)
  {
    x in candidates || (x.id in submitted && x.id in m && m[x.id] == x)
  }

  /** The `j`th submitted id was listed at `layer` by a popped point that stayed in the
      heap, itself an entry candidate or the stored point of an id submitted before it. */
  ghost predicate Listed(s: Search, j: nat, candidates: seq<Point>, m: map<nat, Point>, layer: nat)
    requires j < |s.submitted| == |s.origin| && |s.kept| == |s.popped|
  {
    var i := s.origin[j];
    && i < |s.popped| && s.kept[i]
    && s.submitted[j] in NeighborsAt(s.popped[i], layer)
    && FromRun(s.popped[i], candidates, s.submitted[..j], m)
  }

  /** Where the points of a search come from: every frontier and popped point is one the
      search has met, every submitted id was listed by a kept point met before it (so each
      is reached from an entry candidate along the layer's edges), and every id a kept
      point lists at the layer has been visited. */
  ghost predicate Traced(s: Search, candidates: seq<Point>, m: map<nat, Point>, layer: nat)
  {
    && |s.kept| == |s.popped| && |s.origin| == |s.submitted|
    && (forall x :: x in s.frontier ==> FromRun(x, candidates, s.submitted, m))
    && (forall i :: 0 <= i < |s.popped| ==> FromRun(s.popped[i], candidates, s.submitted, m))
    && (forall j :: 0 <= j < |s.submitted| ==> Listed(s, j, candidates, m, layer))
    && (forall i, n :: 0 <= i < |s.popped| && s.kept[i] && n in NeighborsAt(s.popped[i], layer) ==>
                       n in s.visited)
  }

  /** The invariant of `__search_layer`'s loop: the heap holds the best of the popped
      points, the visited ids are the entry ids and the submitted ones, submissions are
      fresh, the first popped point is the nearest entry candidate, and the search is
      traced. */
  ghost predicate SearchInv(s: Search, candidates: seq<Point>, m: map<nat, Point>, q: Point,
                            count: nat, layer: nat)
  {
    && candidates != []
    && HeapInvariant(s.result, s.popped, count, q)
    && s.visited == IdSet(candidates) + Elems(s.submitted)
    && FreshBatches(s.submitted, candidates)
    && (s.popped == [] ==> s.frontier == SortByDistance(candidates, q))
    && (s.popped != [] ==> s.popped[0] == SortByDistance(candidates, q)[0])
    && Traced(s, candidates, m, layer)
  }

  /** Ids submitted to the frontier: none twice, none an entry candidate's. */
  ghost predicate FreshBatches(submitted: seq<nat>, candidates: seq<Point>)
  {
    && (forall i, j :: 0 <= i < j < |submitted| ==> submitted[i] != submitted[j])
    && (forall i, c :: 0 <= i < |submitted| && 0 <= c < |candidates| ==> submitted[i] != candidates[c].id)
  }

  lemma StartKeeps(candidates: seq<Point>, m: map<nat, Point>, q: Point, count: nat, layer: nat)
    requires candidates != []
    ensures SearchInv(Start(candidates, q), candidates, m, q, count, layer)
  {
    var s := Start(candidates, q);
    forall x | x in s.frontier ensures FromRun(x, candidates, s.submitted, m) {
      assert x in multiset(candidates);
    }
  }

  /** A point the search has met stays one as more ids are submitted. */
  lemma FromRunGrows(x: Point, candidates: seq<Point>, a: seq<nat>, b: seq<nat>, m: map<nat, Point>)
    requires FromRun(x, candidates, a, m) && |a| <= |b| && b[..|a|] == a
    ensures FromRun(x, candidates, b, m)
  {
    if x !in candidates {
      var i :| 0 <= i < |a| && a[i] == x.id;
      assert b[..|a|][i] == b[i];
    }
  }

  /** The stored points of submitted ids are points the search has met. */
  lemma FetchedFromRun(ids: seq<nat>, m: map<nat, Point>, candidates: seq<Point>, submitted: seq<nat>)
    requires KeyedById(m) && forall i :: 0 <= i < |ids| ==> ids[i] in m && ids[i] in submitted
    ensures forall x :: x in Fetched(ids, m) ==> FromRun(x, candidates, submitted, m)
  {
    forall x | x in Fetched(ids, m) ensures FromRun(x, candidates, submitted, m) {
      var i :| 0 <= i < |ids| && Fetched(ids, m)[i] == x;
      assert x == m[ids[i]] && x.id == ids[i];
    }
  }

  lemma ElemsConcat(base: set<nat>, a: seq<nat>, b: seq<nat>)
    ensures base + Elems(a) + Elems(b) == base + Elems(a + b)
  {
  }

  /** A batch of distinct unvisited ids extends fresh submissions to fresh ones. */
  lemma FreshBatchesGrow(submitted: seq<nat>, ids: seq<nat>, candidates: seq<Point>)
    requires FreshBatches(submitted, candidates)
    requires forall i, j :: 0 <= i < j < |ids| ==> ids[i] != ids[j]
    requires forall i :: 0 <= i < |ids| ==> ids[i] !in IdSet(candidates) + Elems(submitted)
    ensures FreshBatches(submitted + ids, candidates)
  {
    var t := submitted + ids;
    forall i, j | 0 <= i < j < |t| ensures t[i] != t[j] {
      if i < |submitted| && j >= |submitted| {
        assert t[i] == submitted[i] && t[j] == ids[j - |submitted|];
      } else if i >= |submitted| {
        assert t[i] == ids[i - |submitted|] && t[j] == ids[j - |submitted|];
      }
    }
    forall i, c | 0 <= i < |t| && 0 <= c < |candidates| ensures t[i] != candidates[c].id {
      assert candidates[c].id in IdSet(candidates);
      if i >= |submitted| {
        assert t[i] == ids[i - |submitted|];
      }
    }
  }

  /** A round keeps the visited ids exactly the entry ids and the submitted ones, and the
      submissions fresh. */
  lemma AdvanceFresh(s: Search, candidates: seq<Point>, m: map<nat, Point>, q: Point, count: nat, layer: nat)
    requires s.frontier != []
    requires s.visited == IdSet(candidates) + Elems(s.submitted) && FreshBatches(s.submitted, candidates)
    ensures var t := Advance(s, m, q, count, layer).0;
      t.visited == IdSet(candidates) + Elems(t.submitted) && FreshBatches(t.submitted, candidates)
  {
    var t := Advance(s, m, q, count, layer).0;
    var ids := Batch(s, q, count, layer);
    assert t.submitted == s.submitted + ids;
    assert t.visited == s.visited + Elems(ids);
    ElemsConcat(IdSet(candidates), s.submitted, ids);
    FreshBatchesGrow(s.submitted, ids, candidates);
  }

  /** The nearest `n` of points the search has met are points it has met. */
  lemma CutFromRun(all: seq<Point>, q: Point, n: nat, candidates: seq<Point>, submitted: seq<nat>,
                   m: map<nat, Point>)
    requires forall x :: x in all ==> FromRun(x, candidates, submitted, m)
    ensures forall x :: x in Take(SortByDistance(all, q), n) ==> FromRun(x, candidates, submitted, m)
  {
    forall x | x in Take(SortByDistance(all, q), n) ensures FromRun(x, candidates, submitted, m) {
      assert x in multiset(all);
    }
  }

  /** A round keeps every popped point one the search has met. */
  lemma AdvancePoppedMet(s: Search, candidates: seq<Point>, m: map<nat, Point>, q: Point, count: nat,
                         layer: nat)
    requires s.frontier != [] && Traced(s, candidates, m, layer)
    ensures var t := Advance(s, m, q, count, layer).0;
      forall i :: 0 <= i < |t.popped| ==> FromRun(t.popped[i], candidates, t.submitted, m)
  {
    var p := s.frontier[0];
    var t := Advance(s, m, q, count, layer).0;
    var ids := Batch(s, q, count, layer);
    assert t.submitted == s.submitted + ids && t.popped == s.popped + [p];
    assert t.submitted[..|s.submitted|] == s.submitted;
    forall i | 0 <= i < |t.popped| ensures FromRun(t.popped[i], candidates, t.submitted, m) {
      FromRunGrows(t.popped[i], candidates, s.submitted, t.submitted, m);
    }
  }

  /** A round keeps every frontier point one the search has met. */
  lemma AdvanceFrontierMet(s: Search, candidates: seq<Point>, m: map<nat, Point>, q: Point, count: nat,
                           layer: nat)
    requires KeyedById(m) && s.frontier != [] && Traced(s, candidates, m, layer)
    ensures var t := Advance(s, m, q, count, layer).0;
      forall x :: x in t.frontier ==> FromRun(x, candidates, t.submitted, m)
  {
    var p := s.frontier[0];
    var t := Advance(s, m, q, count, layer).0;
    var rest := s.frontier[1..];
    var pushed := PushPop(s.result, p, count, q).1;
    var ids := Batch(s, q, count, layer);
    assert t.submitted == s.submitted + ids;
    assert t.submitted[..|s.submitted|] == s.submitted;
    forall x | x in rest ensures FromRun(x, candidates, t.submitted, m) {
      FromRunGrows(x, candidates, s.submitted, t.submitted, m);
    }
    if pushed {
      assert t.frontier == Admitted(rest, ids, m, q, count);
      AdmittedMet(rest, ids, m, q, count, candidates, t.submitted);
    }
  }

  /** Popping `p` and submitting the batch `ids` it lists keeps every submitted id
      listed by a kept point met before it. */
  lemma ListedGrows(s: Search, t: Search, p: Point, pushed: bool, ids: seq<nat>,
                    candidates: seq<Point>, m: map<nat, Point>, layer: nat)
    requires |s.kept| == |s.popped| && |s.origin| == |s.submitted|
    requires forall j :: 0 <= j < |s.submitted| ==> Listed(s, j, candidates, m, layer)
    requires t.popped == s.popped + [p] && t.kept == s.kept + [pushed]
    requires t.submitted == s.submitted + ids && t.origin == s.origin + Repeat(|s.popped|, |ids|)
    requires ids != [] ==> pushed
    requires forall i :: 0 <= i < |ids| ==> ids[i] in NeighborsAt(p, layer)
    requires FromRun(p, candidates, s.submitted, m)
    ensures forall j :: 0 <= j < |t.submitted| ==> Listed(t, j, candidates, m, layer)
  {
    forall j | 0 <= j < |t.submitted| ensures Listed(t, j, candidates, m, layer) {
      if j < |s.submitted| {
        assert Listed(s, j, candidates, m, layer);
        assert t.submitted[..j] == s.submitted[..j];
        assert t.origin[j] == s.origin[j];
      } else {
        assert t.origin[j] == |s.popped|;
        assert t.submitted[j] == ids[j - |s.submitted|];
        assert t.submitted[..j][..|s.submitted|] == s.submitted;
        FromRunGrows(p, candidates, s.submitted, t.submitted[..j], m);
      }
    }
  }

  /** Popping `p` keeps every id a kept point lists visited, when `p`'s own list is
      visited if it was kept. */
  lemma ExpandedGrows(s: Search, t: Search, p: Point, pushed: bool, layer: nat)
    requires |s.kept| == |s.popped|
    requires forall i, n :: 0 <= i < |s.popped| && s.kept[i] && n in NeighborsAt(s.popped[i], layer) ==>
                            n in s.visited
    requires t.popped == s.popped + [p] && t.kept == s.kept + [pushed] && s.visited <= t.visited
    requires pushed ==> forall n :: n in NeighborsAt(p, layer) ==> n in t.visited
    ensures forall i, n :: 0 <= i < |t.popped| && t.kept[i] && n in NeighborsAt(t.popped[i], layer) ==>
                           n in t.visited
  {
    forall i, n | 0 <= i < |t.popped| && t.kept[i] && n in NeighborsAt(t.popped[i], layer)
      ensures n in t.visited
    {
      if i < |s.popped| {
        assert t.popped[i] == s.popped[i] && t.kept[i] == s.kept[i];
      }
    }
  }

  /** A round keeps every submitted id listed by a kept point met before it, and every id
      a kept point lists visited. */
  lemma AdvanceListed(s: Search, candidates: seq<Point>, m: map<nat, Point>, q: Point, count: nat, layer: nat)
    requires s.frontier != [] && Traced(s, candidates, m, layer)
    ensures var t := Advance(s, m, q, count, layer).0;
      && |t.kept| == |t.popped| && |t.origin| == |t.submitted|
      && (forall j :: 0 <= j < |t.submitted| ==> Listed(t, j, candidates, m, layer))
      && (forall i, n :: 0 <= i < |t.popped| && t.kept[i] && n in NeighborsAt(t.popped[i], layer) ==>
                         n in t.visited)
  {
    var p := s.frontier[0];
    var t := Advance(s, m, q, count, layer).0;
    var pushed := PushPop(s.result, p, count, q).1;
    var ids := Batch(s, q, count, layer);
    assert t.popped == s.popped + [p] && t.kept == s.kept + [pushed];
    assert t.submitted == s.submitted + ids && t.origin == s.origin + Repeat(|s.popped|, |ids|);
    assert t.visited == s.visited + Elems(ids);
    ListedGrows(s, t, p, pushed, ids, candidates, m, layer);
    ExpandedGrows(s, t, p, pushed, layer);
  }

  /** A round keeps the search invariant, and fails only on a heap of size above 0, never
      with stored entry candidates in a closed store. */
  lemma AdvanceKeeps(s: Search, candidates: seq<Point>, m: map<nat, Point>, q: Point, count: nat, layer: nat)
    requires KeyedById(m) && s.frontier != [] && SearchInv(s, candidates, m, q, count, layer)
    ensures SearchInv(Advance(s, m, q, count, layer).0, candidates, m, q, count, layer)
    ensures count == 0 ==> Advance(s, m, q, count, layer).1.None?
    ensures AllStored(candidates, m) && Closed(m) ==> Advance(s, m, q, count, layer).1.None?
  {
    var p := s.frontier[0];
    var t := Advance(s, m, q, count, layer);
    PushPopKeepsBest(s.result, s.popped, p, count, q);
    AdvanceFresh(s, candidates, m, q, count, layer);
    AdvancePoppedMet(s, candidates, m, q, count, layer);
    AdvanceFrontierMet(s, candidates, m, q, count, layer);
    AdvanceListed(s, candidates, m, q, count, layer);
    assert t.0.popped == s.popped + [p];
    if AllStored(candidates, m) && Closed(m) && PushPop(s.result, p, count, q).1 {
      assert FromRun(p, candidates, s.submitted, m);
      assert p.id in m && m[p.id] == p;
      var ids := Unvisited(NeighborsAt(p, layer), s.visited);
      forall i | 0 <= i < |ids| ensures ids[i] in m {
        assert ids[i] in NeighborsAt(m[p.id], layer);
      }
    }
  }

  /** The search invariant holds after every round of the loop, which fails only on a heap
      of size above 0, never with stored entry candidates in a closed store. */
  lemma {:induction false} RunKeeps(s: Search, candidates: seq<Point>, m: map<nat, Point>, q: Point,
                                    count: nat, layer: nat)
    requires KeyedById(m) && SearchInv(s, candidates, m, q, count, layer)
    ensures SearchInv(Run(s, m, q, count, layer).0, candidates, m, q, count, layer)
    ensures count == 0 ==> Run(s, m, q, count, layer).1.None?
    ensures AllStored(candidates, m) && Closed(m) ==> Run(s, m, q, count, layer).1.None?
    decreases |m.Keys - s.visited|, |s.frontier|
  {
    if s.frontier != [] {
      AdvanceKeeps(s, candidates, m, q, count, layer);
      var t := Advance(s, m, q, count, layer);
      if t.1.None? {
        RunKeeps(t.0, candidates, m, q, count, layer);
      }
    }
  }

  /** Points the search has met are stored when the entry candidates are. */
  lemma MetStored(s: seq<Point>, candidates: seq<Point>, submitted: seq<nat>, m: map<nat, Point>)
    requires AllStored(candidates, m)
    requires forall i :: 0 <= i < |s| ==> FromRun(s[i], candidates, submitted, m)
    ensures AllStored(s, m)
  {
  }

  /** What a layer search promises, for every query, entry list, width, layer and store:
      the final state of the loop satisfies the search invariant; the result holds the
      `min(count, popped)` best popped points in ascending distance; the first popped point
      is the nearest entry candidate; stored entries give stored points and, in a closed
      store, a result; and a width of 0 gives an empty result. */
  lemma SearchSpecFacts(q: Point, candidates: seq<Point>, count: nat, layer: nat, m: map<nat, Point>,
                        run: (Search, Option<Error>), r: Result<seq<Point>>)
    requires KeyedById(m) && candidates != []
    requires run == Run(Start(candidates, q), m, q, count, layer)
    requires r == SearchSpec(q, candidates, count, layer, m)
    ensures SearchInv(run.0, candidates, m, q, count, layer)
    ensures run.0.popped != [] && run.0.popped[0] == SortByDistance(candidates, q)[0]
    ensures r.Ok? ==> run.0.frontier == [] && Sorted(r.value, q)
    ensures r.Ok? ==> |r.value| == (if |run.0.popped| < count then |run.0.popped| else count)
    ensures r.Ok? ==> KeepsBest(r.value, run.0.popped, q)
    ensures AllStored(candidates, m) ==> AllStored(run.0.popped, m)
    ensures AllStored(candidates, m) && r.Ok? ==> AllStored(r.value, m)
    ensures AllStored(candidates, m) && Closed(m) ==> r.Ok?
    ensures count == 0 ==> r == Ok([])
  {
    var s := Start(candidates, q);
    StartKeeps(candidates, m, q, count, layer);
    RunKeeps(s, candidates, m, q, count, layer);
    var stored := AllStored(candidates, m);
    if stored {
      MetStored(run.0.popped, candidates, run.0.submitted, m);
    }
    if run.1.None? {
      assert run.0.popped != [];
      FinalOrder(run.0.result, run.0.popped, q, count, m, stored);
    }
  }

  /** The promises of a layer search on their own: at most `count` points in ascending
      distance, none when `count` is 0 and some otherwise, stored when the entry points
      are, and no error on a closed store. */
  lemma SearchSpecBasics(q: Point, candidates: seq<Point>, count: nat, layer: nat, m: map<nat, Point>)
    requires KeyedById(m) && candidates != []
    ensures var r := SearchSpec(q, candidates, count, layer, m);
      && (r.Ok? ==> |r.value| <= count && Sorted(r.value, q))
      && (r.Ok? && count >= 1 ==> r.value != [])
      && (AllStored(candidates, m) && r.Ok? ==> AllStored(r.value, m))
      && (AllStored(candidates, m) && Closed(m) ==> r.Ok?)
      && (count == 0 ==> r == Ok([]))
  {
    SearchSpecFacts(q, candidates, count, layer, m, Run(Start(candidates, q), m, q, count, layer),
                    SearchSpec(q, candidates, count, layer, m));
  }

  /** The search's last step: sorting the result heap and cutting it to `count` keeps
      the best popped points, all of them stored when the popped ones were. */
  lemma FinalOrder(result: seq<Point>, popped: seq<Point>, q: Point, count: nat,
                   m: map<nat, Point>, stored: bool)
    requires HeapInvariant(result, popped, count, q)
    requires stored ==> AllStored(popped, m)
    ensures var r := Take(SortByDistance(result, q), count);
      && r == SortByDistance(result, q)
      && |r| == (if |popped| < count then |popped| else count)
      && KeepsBest(r, popped, q)
      && (stored ==> AllStored(r, m))
  {
    var sorted := SortByDistance(result, q);
    if stored {
      forall x | x in sorted ensures x.id in m && m[x.id] == x {
        assert x in multiset(result);
        assert x in multiset(popped);
        assert x in popped;
      }
    }
  }

  /** `frontier` is the candidate set of a search towards `q` of width `count` over
      `store` holding the frontier of `s`, in order, every id it admitted visited. */
  ghost predicate Mirrors(frontier: CandidateSet, store: MemoryPointStore, q: Point, count: nat, s: Search)
    reads frontier, store
  {
    && frontier.store == store && frontier.target == q && frontier.maxSize == count
    && frontier.Valid() && frontier.Ordered()
    && frontier.points == s.frontier && frontier.visited <= s.visited
  }

  /** The start of `__search_layer`: the entry candidates' ids are visited and they form
      the frontier, a candidate set of size `count`. */
  method StartSearch(store: MemoryPointStore, q: Point, candidates: seq<Point>, count: nat)
    returns (frontier: CandidateSet, visited: set<nat>)
    requires store.Valid() && candidates != []
    ensures fresh(frontier)
    ensures visited == IdSet(candidates) && frontier.visited == visited
    ensures Mirrors(frontier, store, q, count, Start(candidates, q))
  {
    visited := set i | 0 <= i < |candidates| :: candidates[i].id;
    frontier := new CandidateSet(q, candidates, count, store);
  }

  /** What one round of the search loop did. */
  datatype Step = Continue | Drained | Stopped(error: Error)

  /** One round of `__search_layer`'s loop: pop the nearest frontier point, pass it
      through the result heap and, if it stayed there, expand it. The round is `Advance`
      on the state `s` the frontier, `visited` and `result` hold. */
  method SearchStep(frontier: CandidateSet, store: MemoryPointStore, q: Point, count: nat, layer: nat,
                    visited: set<nat>, result: seq<Point>, ghost s: Search)
    returns (step: Step, visited': set<nat>, result': seq<Point>, ghost s': Search)
    requires Mirrors(frontier, store, q, count, s) && visited == s.visited && result == s.result
    modifies frontier
    ensures step.Drained? <==> s.frontier == []
    ensures step.Drained? ==> s' == s
    ensures !step.Drained? ==>
              Advance(s, store.points, q, count, layer) == (s', if step.Stopped? then Some(step.error) else None)
    ensures !step.Stopped? ==> Mirrors(frontier, store, q, count, s') && visited' == s'.visited && result' == s'.result
  {
    visited', result', s' := visited, result, s;
    var next := frontier.Pop();
    if next.None? {
      return Drained, visited', result', s';
    }
    var p := next.value;
    var heap := PushPop(result, p, count, q);
    result' := heap.0;
    step := Continue;
    s' := Advance(s, store.points, q, count, layer).0;
    if heap.1 {
      var added, seen, ids := Expand(frontier, p, layer, visited, false);
      visited' := seen;
      if added.Fail? {
        step := Stopped(added.error);
      }
    }
  }

  /** `__search_layer`'s loop, from the state `s` the frontier, `visited` and an empty
      result heap hold: rounds until the frontier is drained or a round fails. `trace` is
      the state it stopped in, the one `Run` reaches from `s`; the result is that run's
      error or its final heap in ascending distance, cut to `count`. */
  method SearchLoop(frontier: CandidateSet, store: MemoryPointStore, q: Point, count: nat, layer: nat,
                    visited: set<nat>, ghost s: Search)
    returns (r: Result<seq<Point>>, ghost trace: Search)
    requires Mirrors(frontier, store, q, count, s) && visited == s.visited && s.result == []
    modifies frontier
    ensures trace == Run(s, store.points, q, count, layer).0
    ensures Run(s, store.points, q, count, layer).1.Some? ==> r == Err(Run(s, store.points, q, count, layer).1.value)
    ensures Run(s, store.points, q, count, layer).1.None? ==> r == Ok(Take(SortByDistance(trace.result, q), count))
  {
    trace := s;
    var seen := visited;
    var result: seq<Point> := [];
    ghost var run := Run(s, store.points, q, count, layer);
    while true
      invariant Mirrors(frontier, store, q, count, trace) && seen == trace.visited && result == trace.result
      invariant Run(trace, store.points, q, count, layer) == run
      decreases |store.points.Keys - seen|, |frontier.points|
    {
      var step;
      ghost var next;
      step, seen, result, next := SearchStep(frontier, store, q, count, layer, seen, result, trace);
      if step.Drained? {
        break;
      } else if step.Stopped? {
        return Err(step.error), next;
      }
      trace := next;
    }
    r := Ok(Take(SortByDistance(result, q), count));
  }

  class Hnsw {
    const config: Config
    const store: MemoryPointStore

    constructor (config: Config, store: MemoryPointStore)
      ensures this.config == config && this.store == store
    {
      this.config := config;
      this.store := store;
    }

    /** `__search_layer`: a beam search of `layer` from `candidates` towards `q`. The
        frontier is a candidate set of size `count`; every popped point goes through the
        result heap, and only a point that stays there has its unvisited neighbours
        submitted to the frontier. The result is `SearchSpec`'s, and `trace` is the loop's
        last state, with the order points left the frontier and the batches handed to it. */
    method SearchLayer(q: Point, candidates: seq<Point>, count: nat, layer: nat)
      returns (r: Result<seq<Point>>, ghost trace: Search)
      requires store.Valid()
      ensures r == SearchSpec(q, candidates, count, layer, store.points)
      ensures candidates != [] ==> trace == Run(Start(candidates, q), store.points, q, count, layer).0
      ensures candidates != [] ==> SearchInv(trace, candidates, store.points, q, count, layer)
      ensures candidates == [] ==> r == Err(EmptyCandidates) && trace == Start(candidates, q)
      ensures r.Err? ==> (candidates == [] && r.error == EmptyCandidates) ||
                         (r.error.NotFound? && r.error.id !in store.points)
      ensures r.Ok? ==> trace.frontier == [] && |r.value| <= count && Sorted(r.value, q)
      ensures r.Ok? ==> |r.value| == (if |trace.popped| < count then |trace.popped| else count)
      ensures r.Ok? ==> KeepsBest(r.value, trace.popped, q)
      ensures candidates != [] ==> trace.popped != [] && trace.popped[0] == SortByDistance(candidates, q)[0]
      ensures candidates != [] && count == 0 ==> r == Ok([])
      ensures FreshBatches(trace.submitted, candidates)
      ensures AllStored(candidates, store.points) ==> AllStored(trace.popped, store.points)
      ensures AllStored(candidates, store.points) && r.Ok? ==> AllStored(r.value, store.points)
      ensures AllStored(candidates, store.points) && Closed(store.points) && candidates != [] ==>
                r.Ok?
    {
      trace := Start(candidates, q);
      if candidates == [] {
        return Err(EmptyCandidates), trace;
      }
      var frontier, visited := StartSearch(store, q, candidates, count);
      r, trace := SearchLoop(frontier, store, q, count, layer, visited, trace);
      SearchSpecFacts(q, candidates, count, layer, store.points,
                      Run(Start(candidates, q), store.points, q, count, layer), r);
    }

    /** A search of `layer` for a caller that needs only its result. */
    method SearchLayerResult(q: Point, candidates: seq<Point>, count: nat, layer: nat)
      returns (r: Result<seq<Point>>)
      requires store.Valid()
      ensures r == SearchSpec(q, candidates, count, layer, store.points)
      ensures r.Err? ==> (candidates == [] && r.error == EmptyCandidates) ||
                         (r.error.NotFound? && r.error.id !in store.points)
      ensures AllStored(candidates, store.points) && r.Ok? ==> AllStored(r.value, store.points)
      ensures AllStored(candidates, store.points) && Closed(store.points) && candidates != [] ==>
                r.Ok?
      ensures r.Ok? ==> |r.value| <= count && Sorted(r.value, q)
      ensures candidates != [] && count >= 1 && r.Ok? ==> r.value != []
    {
      ghost var trace;
      r, trace := SearchLayer(q, candidates, count, layer);
      if candidates != [] && r.Ok? {
        SearchSpecBasics(q, candidates, count, layer, store.points);
      }
    }

    /** The descent through the upper layers shared by `knn_search` and `insert`: a
        search of width `width` at each layer from `top` down to `bottom + 1`, each
        starting from the previous one's result. */
    method Descend(q: Point, entry: seq<Point>, width: nat, top: nat, bottom: nat)
      returns (r: Result<seq<Point>>)
      requires store.Valid()
      requires entry != [] && AllStored(entry, store.points)
      ensures r == DescendSpec(q, entry, width, top, bottom, store.points)
      ensures r.Ok? ==> AllStored(r.value, store.points)
      ensures top <= bottom ==> r == Ok(entry)
      ensures top > bottom && r.Ok? ==> |r.value| <= width && Sorted(r.value, q)
      ensures r.Err? ==> r.error == EmptyCandidates || (r.error.NotFound? && r.error.id !in store.points)
      ensures Closed(store.points) && width >= 1 ==> r.Ok? && r.value != []
      ensures width == 0 && top == bottom + 1 ==> r == Ok([])
      ensures width == 0 && top > bottom + 1 ==> r == Err(EmptyCandidates)
    {
      ghost var m := store.points;
      var current := entry;
      var layer := top;
      while layer > bottom
        invariant layer <= top
        invariant layer < top ==> layer >= bottom
        invariant store.points == m
        invariant DescendSpec(q, entry, width, top, layer, m) == Ok(current)
      {
        var found;
        ghost var trace;
        found, trace := SearchLayer(q, current, width, layer);
        var below := layer - 1;
        DescendOneLayer(q, entry, width, top, layer, below, m);
        if found.Err? {
          DescendErrorStays(q, entry, width, top, below, bottom, m);
          r := Err(found.error);
          DescendFacts(q, entry, width, top, bottom, m, r);
          return;
        }
        current := found.value;
        layer := below;
      }
      r := Ok(current);
      DescendFacts(q, entry, width, top, bottom, m, r);
    }

    /** `knn_search`: from the root, a search of width `highCount` at each layer from the
        top down to 1, then one of width `candidateCount` (by default `2 * k`) at layer
        0, whose result is cut to the `k` nearest. */
    method KnnSearch(q: Point, k: nat, candidateCount: Option<nat> := None, highCount: nat := 1)
      returns (r: Result<seq<Point>>)
      requires store.Valid()
      ensures var count := if candidateCount.None? then 2 * k else candidateCount.value;
        r == KnnSpec(q, k, count, highCount, config.maxLayer, store.points)
      ensures r.Ok? ==> |r.value| <= k && Sorted(r.value, q)
      ensures r.Ok? ==> AllStored(r.value, store.points)
      ensures r.Err? ==> r.error == EmptyCandidates ||
                         (r.error.NotFound? && r.error.id !in store.points)
      ensures Closed(store.points) && highCount >= 1 ==> r.Ok?
      ensures var count := if candidateCount.None? then 2 * k else candidateCount.value;
        Closed(store.points) && highCount >= 1 && count >= 1 && k >= 1 ==> r.Ok? && r.value != []
      ensures config.maxLayer >= 1 && highCount == 0 ==> r == Err(EmptyCandidates)
    {
      var count := if candidateCount.None? then 2 * k else candidateCount.value;
      var fetched := store.GetPoint(RootId, true);
      var entry := Descend(q, [fetched.value], highCount, config.maxLayer, 0);
      if entry.Err? {
        return Err(entry.error);
      }
      var found := SearchLayerResult(q, entry.value, count, 0);
      if found.Err? {
        return Err(found.error);
      }
      var nearest := SelectNeighborsSimple(q, found.value, k);
      forall x | x in nearest ensures x in found.value {
        assert x in multiset(found.value);
      }
      r := Ok(nearest);
    }

    /** The lower half of `insert`: at each layer from `newLayer` down to 0, a search of
        width `candidateSetSize` from the previous result, whose `degree` nearest points
        are appended to `q`'s list at that layer. The heuristic selection the flag asks
        for does not exist in this version, so the flag fails at the first such layer. */
    method LinkLayers(q: Point, entry: seq<Point>, newLayer: nat) returns (r: Outcome, saved: Point)
      requires store.Valid()
      requires AllStored(entry, store.points)
      requires q.id !in store.points && NoSelfListing(q)
      ensures (r, saved) == LinkSpec(q, q, entry, newLayer + 1, store.points, config)
      ensures LinkedDownTo(q, saved, 0, newLayer, config.degree, store.points)
      ensures NoSelfListing(saved)
      ensures ListedStored(store.points, q) ==> ListedStored(store.points, saved)
      ensures r.Fail? ==> r.error == MissingMethod || r.error == EmptyCandidates ||
                          (r.error.NotFound? && r.error.id !in store.points)
      ensures config.enableHeuristic ==> r.Fail?
      ensures Closed(store.points) && config.candidateSetSize >= 1 && entry != [] ==>
                r == (if config.enableHeuristic then Fail(MissingMethod) else Pass)
    {
      ghost var m := store.points;
      saved := q;
      var current := entry;
      var next: nat := newLayer + 1;
      while next > 0
        invariant next <= newLayer + 1
        invariant store.points == m
        invariant LinkSpec(q, saved, current, next, m, config) == LinkSpec(q, q, entry, newLayer + 1, m, config)
        invariant AllStored(current, m)
        invariant Closed(m) && config.candidateSetSize >= 1 && entry != [] ==> current != []
        invariant LinkedDownTo(q, saved, next, newLayer, config.degree, m)
        invariant NoSelfListing(saved)
        invariant ListedStored(m, q) ==> ListedStored(m, saved)
        invariant config.enableHeuristic ==> next == newLayer + 1
      {
        var layer := next - 1;
        var found := SearchLayerResult(q, current, config.candidateSetSize, layer);
        LinkEnter(q, saved, current, next, layer, m, config);
        LinkRoundStep(q, saved, current, layer, m, config, found);
        if found.Err? {
          LinkedBelowAll(q, saved, next, newLayer, config.degree, m);
          return Fail(found.error), saved;
        }
        if config.enableHeuristic {
          LinkedBelowAll(q, saved, next, newLayer, config.degree, m);
          return Fail(MissingMethod), saved;
        }
        var neighbors := SelectNeighborsSimple(q, found.value, config.degree);
        SelectedIdsStored(neighbors, found.value, m, q.id);
        LinkOneMore(q, saved, layer, next, Ids(neighbors), newLayer, config.degree, m);
        saved := AppendIds(saved, layer, neighbors);
        current := found.value;
        next := layer;
      }
      r := Pass;
    }

    /** `insert`, with the drawn level `newLayer` as a parameter: the descent from the
        root with searches of width `insertCandidateSetSize` down to `newLayer + 1`,
        the linking of `q` at the layers below, and a single `save_point`. `saved` is `q`
        with its lists so extended. */
    method Insert(q: Point, newLayer: nat) returns (r: Outcome, saved: Point)
      requires store.Valid()
      requires newLayer <= config.maxLayer
      requires q.id !in store.points
      requires NoSelfListing(q)
      modifies store
      ensures store.Valid()
      ensures var links := InsertLinks(q, newLayer, old(store.points), config);
        && saved == links.1
        && (links.0.Fail? ==> r == links.0 && store.points == old(store.points))
        && (links.0.Pass? ==> (r.Pass? <==> ListedStored(old(store.points), saved)))
      ensures LinkedDownTo(q, saved, 0, newLayer, config.degree, old(store.points))
      ensures r.Pass? ==> SavedState(old(store.points), store.points, saved)
      ensures r.Fail? ==> store.points == old(store.points) || PartlySaved(old(store.points), store.points, saved)
      ensures config.enableHeuristic ==> r.Fail? && store.points == old(store.points)
      ensures Closed(old(store.points)) && ListedStored(old(store.points), q) &&
              config.rootPoint in old(store.points) &&
              config.insertCandidateSetSize >= 1 && config.candidateSetSize >= 1 ==>
                r == (if config.enableHeuristic then Fail(MissingMethod) else Pass)
      ensures r.Pass? && Closed(old(store.points)) && Symmetric(old(store.points)) ==>
                Closed(store.points) && Symmetric(store.points)
    {
      saved := q;
      LinkedNowhere(q, newLayer, config.degree, store.points);
      var fetched := store.GetPoint(config.rootPoint, true);
      if fetched.Err? {
        return Fail(fetched.error), saved;
      }
      var entry := Descend(q, [fetched.value], config.insertCandidateSetSize, config.maxLayer, newLayer);
      if entry.Err? {
        return Fail(entry.error), saved;
      }
      r, saved := LinkLayers(q, entry.value, newLayer);
      if r.Fail? {
        return;
      }
      ghost var before := store.points;
      r := store.SavePoint(saved);
      if r.Pass? && Closed(before) && Symmetric(before) {
        SaveKeepsSymmetry(before, store.points, saved);
      }
    }
  }

  /** The searches of width `width` at the layers from `top` down to `bottom + 1`, each
      starting from the previous one's result; the first error ends the descent. Stated
      by its last layer: the descent to `bottom` is the search at `bottom + 1` from the
      descent to `bottom + 1`. */
  function DescendSpec(q: Point, entry: seq<Point>, width: nat, top: nat, bottom: nat,
                       m: map<nat, Point>): Result<seq<Point>>
    decreases top - bottom
  {
    if top <= bottom then Ok(entry)
    else
      match DescendSpec(q, entry, width, top, bottom + 1, m)
      case Err(e) => Err(e)
      case Ok(above) => SearchSpec(q, above, width, bottom + 1, m)
  }

  /** One more layer of the descent: the search at `layer` from where the descent to
      `layer` arrived, unless that one already failed. */
  lemma DescendOneLayer(q: Point, entry: seq<Point>, width: nat, top: nat, layer: nat, below: nat,
                        m: map<nat, Point>)
    requires 0 < layer <= top && below == layer - 1
    ensures DescendSpec(q, entry, width, top, layer, m).Err? ==>
              DescendSpec(q, entry, width, top, below, m) == DescendSpec(q, entry, width, top, layer, m)
    ensures DescendSpec(q, entry, width, top, layer, m).Ok? ==>
              DescendSpec(q, entry, width, top, below, m) ==
              SearchSpec(q, DescendSpec(q, entry, width, top, layer, m).value, width, layer, m)
  {
    assert below + 1 == layer;
  }

  /** An error at some layer is the error of the whole descent: the layers below it are
      never searched. */
  lemma {:induction false} DescendErrorStays(q: Point, entry: seq<Point>, width: nat, top: nat, layer: nat,
                                             bottom: nat, m: map<nat, Point>)
    requires bottom <= layer && DescendSpec(q, entry, width, top, layer, m).Err?
    ensures DescendSpec(q, entry, width, top, bottom, m) == DescendSpec(q, entry, width, top, layer, m)
    decreases layer - bottom
  {
    if bottom < layer {
      DescendErrorStays(q, entry, width, top, layer, bottom + 1, m);
    }
  }

  /** What the descent promises: stored points, at most `width` of them in ascending
      distance, or the error of a search; never an error on a closed store. */
  lemma {:induction false} DescendFacts(q: Point, entry: seq<Point>, width: nat, top: nat, bottom: nat,
                                        m: map<nat, Point>, r: Result<seq<Point>>)
    requires KeyedById(m) && entry != [] && AllStored(entry, m)
    requires r == DescendSpec(q, entry, width, top, bottom, m)
    ensures r.Ok? ==> AllStored(r.value, m)
    ensures top <= bottom ==> r == Ok(entry)
    ensures top > bottom && r.Ok? ==> |r.value| <= width && Sorted(r.value, q)
    ensures r.Err? ==> r.error == EmptyCandidates || (r.error.NotFound? && r.error.id !in m)
    ensures Closed(m) && width >= 1 ==> r.Ok? && r.value != []
    ensures width == 0 && top == bottom + 1 ==> r == Ok([])
    ensures width == 0 && top > bottom + 1 ==> r == Err(EmptyCandidates)
    decreases top - bottom
  {
    if top > bottom {
      var a := DescendSpec(q, entry, width, top, bottom + 1, m);
      DescendFacts(q, entry, width, top, bottom + 1, m, a);
      if a.Ok? {
        assert r == SearchSpec(q, a.value, width, bottom + 1, m);
        if a.value != [] {
          SearchSpecBasics(q, a.value, width, bottom + 1, m);
        }
      } else {
        assert r == a;
      }
    }
  }

  /** What `knn_search` returns: the descent from the root with width `highCount` down
      to layer 1, the layer-0 search of width `count` from its result, and the `k`
      nearest of that. */
  function KnnSpec(q: Point, k: nat, count: nat, highCount: nat, maxLayer: nat, m: map<nat, Point>)
    : Result<seq<Point>>
    requires RootId in m
  {
    match DescendSpec(q, [m[RootId]], highCount, maxLayer, 0, m)
    case Err(e) => Err(e)
    case Ok(entry) =>
      match SearchSpec(q, entry, count, 0, m)
      case Err(e) => Err(e)
      case Ok(found) => Ok(SelectNeighborsSimple(q, found, k))
  }

  /** The linking loop of `insert` from layer `next - 1` down to 0: at each layer a
      search of width `candidateSetSize` from `current`, the ids of whose `degree`
      nearest points are appended to `saved`'s list at that layer, the search result
      being the next layer's entry list. The outcome, and `saved` as far as it got. */
  function LinkSpec(q: Point, saved: Point, current: seq<Point>, next: nat, m: map<nat, Point>,
                    config: Config): (Outcome, Point)
    decreases next, 1
  {
    if next == 0 then (Pass, saved) else LinkRound(q, saved, current, next - 1, m, config)
  }

  /** The linking at `layer` and then at the layers below it. */
  function LinkRound(q: Point, saved: Point, current: seq<Point>, layer: nat, m: map<nat, Point>,
                     config: Config): (Outcome, Point)
    decreases layer + 1, 0
  {
    match SearchSpec(q, current, config.candidateSetSize, layer, m)
    case Err(e) => (Fail(e), saved)
    case Ok(found) =>
      if config.enableHeuristic then (Fail(MissingMethod), saved)
      else
        var linked := WithAppended(saved, layer, Ids(SelectNeighborsSimple(q, found, config.degree)));
        LinkSpec(q, linked, found, layer, m, config)
  }

  /** The linking below `next` starts at `layer`, the layer just below it. */
  lemma LinkEnter(q: Point, saved: Point, current: seq<Point>, next: nat, layer: nat, m: map<nat, Point>,
                  config: Config)
    requires next == layer + 1
    ensures LinkSpec(q, saved, current, next, m, config) == LinkRound(q, saved, current, layer, m, config)
  {
    assert LinkSpec(q, saved, current, next, m, config) == LinkRound(q, saved, current, next - 1, m, config);
    assert next - 1 == layer;
    assert LinkRound(q, saved, current, next - 1, m, config) == LinkRound(q, saved, current, layer, m, config);
  }

  /** One round of the linking loop at `layer`, given the search there: it stops on a
      failed search or on the heuristic, and otherwise goes on below `layer` from the
      search result, with the selected ids appended at `layer`. */
  lemma LinkRoundStep(q: Point, saved: Point, current: seq<Point>, layer: nat, m: map<nat, Point>,
                      config: Config, found: Result<seq<Point>>)
    requires found == SearchSpec(q, current, config.candidateSetSize, layer, m)
    ensures found.Err? ==> LinkRound(q, saved, current, layer, m, config) == (Fail(found.error), saved)
    ensures found.Ok? && config.enableHeuristic ==>
              LinkRound(q, saved, current, layer, m, config) == (Fail(MissingMethod), saved)
    ensures found.Ok? && !config.enableHeuristic ==>
              LinkRound(q, saved, current, layer, m, config) ==
              LinkSpec(q, WithAppended(saved, layer, Ids(SelectNeighborsSimple(q, found.value, config.degree))),
                       found.value, layer, m, config)
  {
  }

  /** The point `insert` saves, and whether the search part failed first: the root fetch,
      the descent of width `insertCandidateSetSize` down to `newLayer + 1`, then the
      linking from `newLayer` down to 0. */
  function InsertLinks(q: Point, newLayer: nat, m: map<nat, Point>, config: Config): (Outcome, Point)
  {
    if config.rootPoint !in m then (Fail(NotFound(config.rootPoint)), q)
    else
      match DescendSpec(q, [m[config.rootPoint]], config.insertCandidateSetSize, config.maxLayer, newLayer, m)
      case Err(e) => (Fail(e), q)
      case Ok(entry) => LinkSpec(q, q, entry, newLayer + 1, m, config)
  }

  /** `p` with `ids` appended to its list at `layer`. */
  function WithAppended(p: Point, layer: nat, ids: seq<nat>): (r: Point)
    ensures r.id == p.id && r.vector == p.vector
    ensures NeighborsAt(r, layer) == NeighborsAt(p, layer) + ids
    ensures forall l :: l != layer ==> NeighborsAt(r, l) == NeighborsAt(p, l)
  {
    p.(neighbors := p.neighbors[layer := NeighborsAt(p, layer) + ids])
  }

  /** `q2` is `q` linked at the layers from `newLayer` down to `next`: its lists there
      grew within the degree by stored ids other than its own; its other lists are `q`'s. */
  ghost predicate LinkedDownTo(q: Point, q2: Point, next: nat, newLayer: nat, degree: nat,
                               m: map<nat, Point>)
  {
    && q2.id == q.id && q2.vector == q.vector
    && (forall l: nat :: l > newLayer || l < next ==> NeighborsAt(q2, l) == NeighborsAt(q, l))
    && (forall l: nat :: next <= l <= newLayer ==> GrownAt(q, q2, l, degree, m))
  }

  /** Before any layer is linked. */
  lemma LinkedNowhere(q: Point, newLayer: nat, degree: nat, m: map<nat, Point>)
    ensures LinkedDownTo(q, q, newLayer + 1, newLayer, degree, m)
  {
  }

  /** A point linked down to `next` is also linked down to 0, the layers below having
      grown by nothing. */
  lemma LinkedBelowAll(q: Point, q2: Point, next: nat, newLayer: nat, degree: nat, m: map<nat, Point>)
    requires LinkedDownTo(q, q2, next, newLayer, degree, m)
    ensures LinkedDownTo(q, q2, 0, newLayer, degree, m)
  {
    forall l: nat | l <= newLayer ensures GrownAt(q, q2, l, degree, m) {
      if l < next {
        assert NeighborsAt(q2, l)[..|NeighborsAt(q, l)|] == NeighborsAt(q, l);
      }
    }
  }

  /** Linking one more layer: appending at most `degree` stored ids other than `q`'s own
      to the untouched list at `layer` extends the linked range down to `layer`, and
      keeps `q` from listing itself or an id the store lacks. */
  lemma LinkOneMore(q: Point, q2: Point, layer: nat, next: nat, ids: seq<nat>, newLayer: nat, degree: nat,
                    m: map<nat, Point>)
    requires next == layer + 1
    requires LinkedDownTo(q, q2, next, newLayer, degree, m) && layer <= newLayer
    requires |ids| <= degree && forall n :: n in ids ==> n in m && n != q.id
    ensures LinkedDownTo(q, WithAppended(q2, layer, ids), layer, newLayer, degree, m)
    ensures NoSelfListing(q2) ==> NoSelfListing(WithAppended(q2, layer, ids))
    ensures ListedStored(m, q2) ==> ListedStored(m, WithAppended(q2, layer, ids))
  {
    var q3 := WithAppended(q2, layer, ids);
    var before := NeighborsAt(q, layer);
    assert NeighborsAt(q3, layer) == before + ids;
    assert (before + ids)[..|before|] == before;
    forall i | |before| <= i < |before| + |ids| ensures (before + ids)[i] in m && (before + ids)[i] != q.id {
      assert (before + ids)[i] == ids[i - |before|];
    }
    forall l: nat | layer < l <= newLayer ensures GrownAt(q, q3, l, degree, m) {
      assert GrownAt(q, q2, l, degree, m);
      assert NeighborsAt(q3, l) == NeighborsAt(q2, l);
    }
  }

  /** The selected points are drawn from stored search results, so their ids are stored
      ids, none of them the id of a point the store lacks. */
  lemma SelectedIdsStored(neighbors: seq<Point>, found: seq<Point>, m: map<nat, Point>, qid: nat)
    requires multiset(neighbors) <= multiset(found) && AllStored(found, m) && qid !in m
    ensures forall n :: n in Ids(neighbors) ==> n in m && n != qid
  {
    forall n | n in Ids(neighbors) ensures n in m && n != qid {
      var i :| 0 <= i < |neighbors| && Ids(neighbors)[i] == n;
      assert neighbors[i] in multiset(found);
      assert neighbors[i] in found;
    }
  }

  /** `for n in neighbors: q.neighbors[layer].append(n.id)`. */
  method AppendIds(saved: Point, layer: nat, neighbors: seq<Point>) returns (saved': Point)
    ensures saved' == WithAppended(saved, layer, Ids(neighbors))
  {
    var listed := NeighborsAt(saved, layer);
    for i := 0 to |neighbors|
      invariant listed == NeighborsAt(saved, layer) + Ids(neighbors[..i])
    {
      IdsSnoc(neighbors, i);
      listed := listed + [neighbors[i].id];
    }
    assert neighbors[..|neighbors|] == neighbors;
    saved' := saved.(neighbors := saved.neighbors[layer := listed]);
  }

  /** Visiting ids can only shrink the set of stored ids not yet visited, and visiting a
      stored one shrinks it strictly. */
  lemma NotFewerVisited(keys: set<nat>, before: set<nat>, after: set<nat>, ids: seq<nat>)
    requires before <= after
    ensures |keys - after| <= |keys - before|
    ensures (exists i :: 0 <= i < |ids| && ids[i] in keys && ids[i] in after && ids[i] !in before) ==>
              |keys - after| < |keys - before|
  {
    var a := keys - after;
    var b := keys - before;
    assert a <= b;
    assert |b| == |a| + |b - a| by {
      assert b == a + (b - a);
    }
  }
}
