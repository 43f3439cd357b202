/** The candidate set of a layer search: the frontier of points still to expand, kept in
    ascending order of distance to the target and cut to `maxSize` after each batch, and
    the set of ids it has ever admitted. */
module Candidates {
  import opened Common
  import opened Points
  import opened PointStore

  /** How many leading ids of a batch `add` admits before it stops: it stops at the first
      id the store does not hold (the fetch raises) or whose id was admitted before (it
      returns early). Ids admitted earlier in the same batch count as admitted. */
  function StopIndex(ids: seq<nat>, visited: set<nat>, store: map<nat, Point>): (k: nat)
    ensures k <= |ids|
  {
    if ids == [] || ids[0] !in store || ids[0] in visited then 0
    else 1 + StopIndex(ids[1..], visited + {ids[0]}, store)
  }

  /** The stored points for a list of known ids, in order (`executor.map(worker, ids)`). */
  function Fetched(ids: seq<nat>, store: map<nat, Point>): (r: seq<Point>)
    requires forall i :: 0 <= i < |ids| ==> ids[i] in store
    ensures |r| == |ids|
    ensures forall i :: 0 <= i < |ids| ==> r[i] == store[ids[i]]
  {
    seq(|ids|, i requires 0 <= i < |ids| => store[ids[i]])
  }

  function Elems(s: seq<nat>): set<nat>
  {
    set x | x in s
  }

  class CandidateSet {
    const target: Point
    const maxSize: nat
    const store: MemoryPointStore
    var points: seq<Point>
    var visited: set<nat>

    ghost predicate Valid()
      reads this, store
    {
      && store.Valid()
      && forall i :: 0 <= i < |points| ==> points[i].id in visited
    }

    /** The frontier is in ascending order, so its head is the nearest point. */
    ghost predicate Ordered()
      reads this
    {
      Sorted(points, target)
    }

    /** The initial points, sorted by distance to `target`, with their ids admitted. The
        source reads `points[-1]`, which raises on an empty list. */
    constructor (target: Point, initial: seq<Point>, maxSize: nat, store: MemoryPointStore)
      requires store.Valid()
      requires |initial| > 0
      ensures Valid() && Ordered()
      ensures this.target == target && this.maxSize == maxSize && this.store == store
      ensures points == SortByDistance(initial, target)
      ensures visited == set i | 0 <= i < |initial| :: initial[i].id
    {
      this.target := target;
      this.maxSize := maxSize;
      this.store := store;
      var sorted := SortByDistance(initial, target);
      var ids := set i | 0 <= i < |initial| :: initial[i].id;
      points := sorted;
      visited := ids;
      forall i | 0 <= i < |sorted| ensures sorted[i].id in ids {
        assert sorted[i] in multiset(initial);
        var j :| 0 <= j < |initial| && initial[j] == sorted[i];
      }
    }

    /** `pop`: nothing when the frontier is empty, otherwise its nearest point, removed. */
    method Pop() returns (r: Option<Point>)
      requires Valid() && Ordered()
      modifies this`points
      ensures Valid() && Ordered()
      ensures r.None? <==> old(points) == []
      ensures r.None? ==> points == old(points)
      ensures r.Some? ==> r.value == old(points)[0] && points == old(points)[1..]
      ensures r.Some? ==> forall i :: 0 <= i < |points| ==> NearerEq(r.value, points[i], target)
    {
      if |points| == 0 {
        return None;
      }
      r := Some(points[0]);
      points := points[1..];
    }

    /** `worker`: fetch one id from the store, neighbours included. */
    method Worker(id: nat) returns (r: Result<Point>)
      requires Valid()
      ensures r.Ok? <==> id in store.points
      ensures r.Ok? ==> r.value == store.points[id] && r.value.id == id
      ensures r.Err? ==> r.error == NotFound(id)
    {
      r := store.GetPoint(id, true);
    }

    /** `add`: fetch the ids in order and admit each fetched point to the frontier. A point
        already admitted ends the call at once, leaving the frontier unsorted and uncut;
        otherwise, once the whole batch is admitted, the frontier is sorted and cut to its
        nearest `maxSize` points. An unknown id raises part-way through. */
    method Add(ids: seq<nat>) returns (r: Outcome)
      requires Valid()
      modifies this
      ensures Valid()
      ensures var k := StopIndex(ids, old(visited), store.points);
        && (forall i :: 0 <= i < k ==> ids[i] in store.points)
        && visited == old(visited) + Elems(ids[..k])
        && (k == |ids| ==>
              points == Take(SortByDistance(old(points) + Fetched(ids, store.points), target), maxSize))
        && (k < |ids| ==> points == old(points) + Fetched(ids[..k], store.points))
        && (r.Fail? <==> k < |ids| && ids[k] !in store.points)
        && (r.Fail? ==> r.error == NotFound(ids[k]))
      ensures StopIndex(ids, old(visited), store.points) == |ids| ==> Ordered() && |points| <= maxSize
    {
      ghost var k := StopIndex(ids, visited, store.points);
      var i := 0;
      while i < |ids|
        invariant i <= |ids|
        invariant forall j :: 0 <= j < i ==> ids[j] in store.points
        invariant k == i + StopIndex(ids[i..], visited, store.points)
        invariant visited == old(visited) + Elems(ids[..i])
        invariant points == old(points) + Fetched(ids[..i], store.points)
        invariant Valid()
      {
        var fetched := Worker(ids[i]);
        if fetched.Err? {
          assert k == i;
          r := Fail(fetched.error);
          return;
        }
        var point := fetched.value;
        if point.id in visited {
          assert k == i;
          r := Pass;
          return;
        }
        assert ids[i..][1..] == ids[i + 1..];
        Admit(ids, i, point, old(visited), old(points));
        i := i + 1;
      }
      assert ids[..i] == ids && k == |ids|;
      SortAndCut();
      r := Pass;
    }

    /** One step of `add`: the fetched point of `ids[i]`, not admitted before, joins the
        frontier and its id the admitted set. */
    method Admit(ids: seq<nat>, i: nat, point: Point, ghost visited0: set<nat>, ghost points0: seq<Point>)
      requires Valid()
      requires i < |ids| && ids[i] in store.points && point == store.points[ids[i]]
      requires point.id == ids[i] && point.id !in visited
      requires forall j :: 0 <= j < i ==> ids[j] in store.points
      requires visited == visited0 + Elems(ids[..i])
      requires points == points0 + Fetched(ids[..i], store.points)
      modifies this`points, this`visited
      ensures Valid()
      ensures visited == old(visited) + {point.id}
      ensures visited == visited0 + Elems(ids[..i + 1])
      ensures points == points0 + Fetched(ids[..i + 1], store.points)
    {
      visited := visited + {point.id};
      points := points + [point];
      assert ids[..i + 1] == ids[..i] + [ids[i]];
      assert Fetched(ids[..i + 1], store.points) == Fetched(ids[..i], store.points) + [point];
    }

    /** The end of a completed `add`: sort the frontier and keep its `maxSize` nearest. */
    method SortAndCut()
      requires Valid()
      modifies this`points
      ensures Valid() && Ordered() && |points| <= maxSize
      ensures points == Take(SortByDistance(old(points), target), maxSize)
    {
      var sorted := SortByDistance(points, target);
      forall j | 0 <= j < |sorted| ensures sorted[j].id in visited {
        assert sorted[j] in multiset(points);
        var m :| 0 <= m < |points| && points[m] == sorted[j];
      }
      TakeKeepsNearest(sorted, maxSize, target);
      points := Take(sorted, maxSize);
    }
  }

  /** On the normal path `add` keeps exactly the `maxSize` nearest of the old frontier and
      the fetched points: what it keeps is sorted, and ranks no later than what it drops. */
  lemma {:induction false} AddKeepsNearest(s: seq<Point>, n: nat, q: Point)
    ensures var kept := Take(SortByDistance(s, q), n);
      var dropped := SortByDistance(s, q)[|kept|..];
      && Sorted(kept, q)
      && |kept| == (if n < |s| then n else |s|)
      && multiset(kept) + multiset(dropped) == multiset(s)
      && AllNearerEq(kept, dropped, q)
  {
    var sorted := SortByDistance(s, q);
    var kept := Take(sorted, n);
    TakeKeepsNearest(sorted, n, q);
    assert sorted == kept + sorted[|kept|..];
    assert multiset(sorted) == multiset(kept) + multiset(sorted[|kept|..]);
  }

  /** The position of the first id of `ids` the store does not hold; `|ids|` when it holds
      them all. */
  function FirstMissing(ids: seq<nat>, store: map<nat, Point>): (k: nat)
    ensures k <= |ids|
    ensures forall i :: 0 <= i < k ==> ids[i] in store
    ensures k < |ids| ==> ids[k] !in store
  {
    if ids == [] || ids[0] !in store then 0 else 1 + FirstMissing(ids[1..], store)
  }

  /** A batch of distinct ids none of which was admitted before never takes the early
      return: `add` stops exactly at the first id the store does not hold. */
  lemma {:induction false} FreshIdsNeverRevisit(ids: seq<nat>, visited: set<nat>, store: map<nat, Point>)
    requires forall i, j :: 0 <= i < j < |ids| ==> ids[i] != ids[j]
    requires forall i :: 0 <= i < |ids| ==> ids[i] !in visited
    ensures var k := StopIndex(ids, visited, store);
      k == FirstMissing(ids, store) && (k == |ids| || ids[k] !in store)
  {
    if ids != [] && ids[0] in store {
      forall i | 0 <= i < |ids[1..]| ensures ids[1..][i] !in visited + {ids[0]} {
        assert ids[1..][i] == ids[i + 1];
      }
      FreshIdsNeverRevisit(ids[1..], visited + {ids[0]}, store);
    }
  }
}
