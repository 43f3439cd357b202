/** The in-memory point store: a map from id to point, and `save_point`, which stores a
    point and appends its id to the lists of the points it names as neighbours. */
module PointStore {
  import opened Common
  import opened Points

  /** Every id listed by a stored point is itself stored. */
  ghost predicate Closed(points: map<nat, Point>)
  {
    forall a, layer, n :: a in points && n in NeighborsAt(points[a], layer) ==> n in points
  }

  /** Edges are undirected: at every layer, `b` is listed by `a` as often as `a` by `b`. */
  ghost predicate Symmetric(points: map<nat, Point>)
  {
    forall a, b, layer :: a in points && b in points ==>
      Count(NeighborsAt(points[a], layer), b) == Count(NeighborsAt(points[b], layer), a)
  }

  ghost predicate KeyedById(points: map<nat, Point>)
  {
    forall k :: k in points ==> points[k].id == k
  }

  /** Every id `p` lists, at any layer, is a key of `points`. */
  ghost predicate ListedStored(points: map<nat, Point>, p: Point)
  {
    forall layer, n :: n in NeighborsAt(p, layer) ==> n in points
  }

  ghost predicate NoSelfListing(p: Point)
  {
    forall layer :: p.id !in NeighborsAt(p, layer)
  }

  /** `a` is the stored entry `b` (under key `k`) after `pid` was appended to its list at
      each layer once per listing of `k` in `done`. */
  ghost predicate EntryAppended(b: Point, a: Point, k: nat, pid: nat, done: map<nat, seq<nat>>)
  {
    && a.id == b.id
    && a.vector == b.vector
    && forall layer :: NeighborsAt(a, layer) ==
         NeighborsAt(b, layer) + Repeat(pid, Count(LayerOf(done, layer), k))
  }

  /** `after` is `before` with `p` stored under its id and, for the listings of `p`
      recorded in `done`, `p.id` appended to the listed point's list at that layer once
      per listing. */
  ghost predicate BackEdgesAdded(before: map<nat, Point>, after: map<nat, Point>, p: Point,
                                 done: map<nat, seq<nat>>)
  {
    && after.Keys == before.Keys + {p.id}
    && after[p.id] == p
    && forall k :: k in before && k != p.id ==> EntryAppended(before[k], after[k], k, p.id, done)
  }

  function LayerOf(done: map<nat, seq<nat>>, layer: nat): seq<nat>
  {
    if layer in done then done[layer] else []
  }

  /** The store after a successful `save_point(p)`. */
  ghost predicate SavedState(before: map<nat, Point>, after: map<nat, Point>, p: Point)
  {
    BackEdgesAdded(before, after, p, p.neighbors)
  }

  /** `a` is `b` with `pid` appended at each layer at most as often as `p` lists `k`. */
  ghost predicate EntryPartlyAppended(b: Point, a: Point, k: nat, p: Point)
  {
    && a.id == b.id
    && a.vector == b.vector
    && forall layer :: AppendedUpTo(b, a, layer, p.id, Count(NeighborsAt(p, layer), k))
  }

  /** At `layer`, `a`'s list is `b`'s followed by at most `bound` copies of `pid`. */
  ghost predicate AppendedUpTo(b: Point, a: Point, layer: nat, pid: nat, bound: nat)
  {
    exists c: nat :: c <= bound && NeighborsAt(a, layer) == NeighborsAt(b, layer) + Repeat(pid, c)
  }

  /** The store after a `save_point(p)` that stopped part-way: `p` is stored, and every
      other entry has gained at most the back edges a complete save would add. */
  ghost predicate PartlySaved(before: map<nat, Point>, after: map<nat, Point>, p: Point)
  {
    && after.Keys == before.Keys + {p.id}
    && after[p.id] == p
    && forall k :: k in before && k != p.id ==> EntryPartlyAppended(before[k], after[k], k, p)
  }

  class MemoryPointStore {
    var points: map<nat, Point>

    ghost predicate Valid()
      reads this
    {
      RootId in points && KeyedById(points)
    }

    /** A new store holds exactly the root point. */
    constructor ()
      ensures Valid()
      ensures points == map[RootId := Root()]
    {
      points := map[RootId := Root()];
    }

    /** `get_point`: the stored point, or `NotFound` for an unknown id. The
        `withNeighbors` flag makes no difference to this store. */
    method GetPoint(id: nat, withNeighbors: bool) returns (r: Result<Point>)
      requires Valid()
      ensures r.Ok? <==> id in points
      ensures r.Ok? ==> r.value == points[id] && r.value.id == id
      ensures r.Err? ==> r.error == NotFound(id)
    {
      if id in points {
        r := Ok(points[id]);
      } else {
        r := Err(NotFound(id));
      }
    }

    /** `save_point`: store `p`, then for every layer of `p` and every id listed there,
        append `p.id` to the stored point's list at that layer. A listed id the store
        does not hold raises part-way through. */
    method SavePoint(p: Point) returns (r: Outcome)
      requires Valid()
      requires NoSelfListing(p)
      modifies this
      ensures Valid()
      ensures r.Pass? <==> ListedStored(old(points), p)
      ensures r.Pass? ==> SavedState(old(points), points, p)
      ensures r.Fail? ==> PartlySaved(old(points), points, p)
      ensures r.Fail? ==> r.error.NotFound? && r.error.id !in old(points)
    {
      ghost var before := points;
      points := points[p.id := p];
      StoreFirst(before, points, p);
      var layers := p.neighbors.Keys;
      ghost var done: map<nat, seq<nat>> := map[];
      while layers != {}
        invariant layers <= p.neighbors.Keys
        invariant done.Keys == p.neighbors.Keys - layers
        invariant forall layer :: layer in done ==> done[layer] == NeighborsAt(p, layer)
        invariant forall layer, n :: layer in done && n in done[layer] ==> n in before
        invariant RootId in points && KeyedById(points)
        invariant BackEdgesAdded(before, points, p, done)
        decreases layers
      {
        var layer :| layer in layers;
        r := AppendAtLayer(p, layer, before, done);
        if r.Fail? {
          return;
        }
        done := done[layer := p.neighbors[layer]];
        layers := layers - {layer};
      }
      assert done == p.neighbors;
      r := Pass;
    }

    /** One step of the inner loop: append `p.id` to the stored list of `ns[j]`. */
    method AppendOne(p: Point, layer: nat, ghost before: map<nat, Point>, ghost done: map<nat, seq<nat>>,
                     ns: seq<nat>, j: nat)
      requires RootId in points && KeyedById(points) && NoSelfListing(p)
      requires ns == NeighborsAt(p, layer) && j < |ns| && ns[j] in points
      requires BackEdgesAdded(before, points, p, done[layer := ns[..j]])
      modifies this
      ensures RootId in points && KeyedById(points)
      ensures BackEdgesAdded(before, points, p, done[layer := ns[..j + 1]])
      ensures ns[j] in before
    {
      var n := ns[j];
      assert n != p.id by { assert n in NeighborsAt(p, layer); }
      ghost var mid := points;
      var s := points[n];
      var s' := s.(neighbors := s.neighbors[layer := NeighborsAt(s, layer) + [p.id]]);
      KeyedAfterUpdate(points, n, s');
      points := points[n := s'];
      AppendOneMore(before, mid, points, p, done, layer, ns, j);
    }

    /** The inner loop of `save_point` for one layer of `p`: append `p.id` to the stored
        list of every id `p` lists at `layer`, in order, stopping at an unknown id. */
    method AppendAtLayer(p: Point, layer: nat, ghost before: map<nat, Point>,
                         ghost done: map<nat, seq<nat>>) returns (r: Outcome)
      requires RootId in points && KeyedById(points)
      requires NoSelfListing(p)
      requires layer in p.neighbors && layer !in done
      requires forall l :: l in done ==> done[l] == NeighborsAt(p, l)
      requires BackEdgesAdded(before, points, p, done)
      modifies this
      ensures RootId in points && KeyedById(points)
      ensures r.Pass? ==> BackEdgesAdded(before, points, p, done[layer := p.neighbors[layer]])
      ensures r.Pass? ==> forall n :: n in p.neighbors[layer] ==> n in before
      ensures r.Fail? ==> PartlySaved(before, points, p)
      ensures r.Fail? ==> r.error.NotFound? && r.error.id !in before
      ensures r.Fail? ==> r.error.id in NeighborsAt(p, layer)
    {
      var ns := p.neighbors[layer];
      assert ns == NeighborsAt(p, layer);
      var j := 0;
      BackEdgesCongruent(before, points, p, done, done[layer := ns[..0]]);
      while j < |ns| && ns[j] in points
        invariant j <= |ns|
        invariant forall i :: 0 <= i < j ==> ns[i] in before
        invariant RootId in points && KeyedById(points)
        invariant BackEdgesAdded(before, points, p, done[layer := ns[..j]])
      {
        AppendOne(p, layer, before, done, ns, j);
        j := j + 1;
      }
      if j < |ns| {
        r := Fail(NotFound(ns[j]));
        assert ns[j] != p.id by { assert ns[j] in NeighborsAt(p, layer); }
        assert ns[..j] <= NeighborsAt(p, layer);
        PartialIsPartlySaved(before, points, p, done[layer := ns[..j]]);
      } else {
        assert ns[..j] == ns;
        r := Pass;
      }
    }
  }

  lemma KeyedAfterUpdate(m: map<nat, Point>, k: nat, v: Point)
    requires KeyedById(m) && v.id == k
    ensures KeyedById(m[k := v])
  {
  }

  lemma StoreFirst(before: map<nat, Point>, after: map<nat, Point>, p: Point)
    requires after == before[p.id := p]
    ensures BackEdgesAdded(before, after, p, map[])
  {
    forall k | k in before && k != p.id ensures EntryAppended(before[k], after[k], k, p.id, map[]) {
      forall layer ensures NeighborsAt(after[k], layer) ==
          NeighborsAt(before[k], layer) + Repeat(p.id, Count(LayerOf(map[], layer), k)) {
        assert NeighborsAt(before[k], layer) + [] == NeighborsAt(before[k], layer);
      }
    }
  }

  /** One more listing processed at `layer`: the stored list of the listed point has
      gained one more copy of `p.id`. */
  lemma AppendOneMore(before: map<nat, Point>, mid: map<nat, Point>, after: map<nat, Point>,
                      p: Point, done: map<nat, seq<nat>>, layer: nat, ns: seq<nat>, j: nat)
    requires j < |ns|
    requires ns[j] in before && ns[j] != p.id
    requires BackEdgesAdded(before, mid, p, done[layer := ns[..j]])
    requires after == mid[ns[j] := mid[ns[j]].(neighbors :=
               mid[ns[j]].neighbors[layer := NeighborsAt(mid[ns[j]], layer) + [p.id]])]
    ensures BackEdgesAdded(before, after, p, done[layer := ns[..j + 1]])
  {
    var d0, d1 := done[layer := ns[..j]], done[layer := ns[..j + 1]];
    var n := ns[j];
    assert ns[..j + 1] == ns[..j] + [n];
    assert LayerOf(d1, layer) == LayerOf(d0, layer) + [n];
    assert forall l :: l != layer ==> LayerOf(d1, l) == LayerOf(d0, l);
    forall k | k in before && k != p.id
      ensures EntryAppended(before[k], after[k], k, p.id, d1)
    {
      assert EntryAppended(before[k], mid[k], k, p.id, d0);
      if k == n {
        EntryOneMore(before[k], mid[k], after[k], k, p.id, d0, d1, layer);
      } else {
        assert after[k] == mid[k];
        EntryNotListed(before[k], after[k], k, p.id, d0, d1, layer, n);
      }
    }
  }

  lemma EntryOneMore(b: Point, m: Point, a: Point, k: nat, pid: nat,
                     d0: map<nat, seq<nat>>, d1: map<nat, seq<nat>>, layer: nat)
    requires EntryAppended(b, m, k, pid, d0)
    requires a == m.(neighbors := m.neighbors[layer := NeighborsAt(m, layer) + [pid]])
    requires LayerOf(d1, layer) == LayerOf(d0, layer) + [k]
    requires forall l :: l != layer ==> LayerOf(d1, l) == LayerOf(d0, l)
    ensures EntryAppended(b, a, k, pid, d1)
  {
    forall l ensures NeighborsAt(a, l) == NeighborsAt(b, l) + Repeat(pid, Count(LayerOf(d1, l), k)) {
      if l == layer {
        ListOneMore(NeighborsAt(b, l), NeighborsAt(m, l), NeighborsAt(a, l), LayerOf(d0, l), LayerOf(d1, l), k, pid);
      } else {
        assert NeighborsAt(a, l) == NeighborsAt(m, l);
      }
    }
  }

  /** The same step on one layer's lists: `k` listed once more, `pid` appended once more. */
  lemma ListOneMore(b: seq<nat>, m: seq<nat>, a: seq<nat>, l0: seq<nat>, l1: seq<nat>, k: nat, pid: nat)
    requires m == b + Repeat(pid, Count(l0, k))
    requires a == m + [pid] && l1 == l0 + [k]
    ensures a == b + Repeat(pid, Count(l1, k))
  {
    CountSnoc(l0, k, k);
    RepeatAppend(b, pid, Count(l0, k));
  }

  lemma EntryNotListed(b: Point, a: Point, k: nat, pid: nat,
                       d0: map<nat, seq<nat>>, d1: map<nat, seq<nat>>, layer: nat, n: nat)
    requires EntryAppended(b, a, k, pid, d0)
    requires n != k && LayerOf(d1, layer) == LayerOf(d0, layer) + [n]
    requires forall l :: l != layer ==> LayerOf(d1, l) == LayerOf(d0, l)
    ensures EntryAppended(b, a, k, pid, d1)
  {
    CountSnoc(LayerOf(d0, layer), n, k);
  }

  /** `BackEdgesAdded` depends on `done` only through the lists it gives each layer. */
  lemma BackEdgesCongruent(before: map<nat, Point>, after: map<nat, Point>, p: Point,
                           d0: map<nat, seq<nat>>, d1: map<nat, seq<nat>>)
    requires forall l :: LayerOf(d0, l) == LayerOf(d1, l)
    requires BackEdgesAdded(before, after, p, d0)
    ensures BackEdgesAdded(before, after, p, d1)
  {
    forall k | k in before && k != p.id ensures EntryAppended(before[k], after[k], k, p.id, d1) {
      assert EntryAppended(before[k], after[k], k, p.id, d0);
    }
  }

  lemma PartialIsPartlySaved(before: map<nat, Point>, after: map<nat, Point>, p: Point,
                             done: map<nat, seq<nat>>)
    requires forall layer :: layer in done ==> done[layer] <= NeighborsAt(p, layer)
    requires BackEdgesAdded(before, after, p, done)
    ensures PartlySaved(before, after, p)
  {
    forall k | k in before && k != p.id ensures EntryPartlyAppended(before[k], after[k], k, p) {
      assert EntryAppended(before[k], after[k], k, p.id, done);
      assert after[k].id == before[k].id && after[k].vector == before[k].vector;
      forall layer
        ensures AppendedUpTo(before[k], after[k], layer, p.id, Count(NeighborsAt(p, layer), k))
      {
        var c := Count(LayerOf(done, layer), k);
        if layer in done {
          var full := NeighborsAt(p, layer);
          assert full == done[layer] + full[|done[layer]|..];
          CountAppend(done[layer], full[|done[layer]|..], k);
        }
        assert c <= Count(NeighborsAt(p, layer), k);
        assert NeighborsAt(after[k], layer) == NeighborsAt(before[k], layer) + Repeat(p.id, c);
      }
    }
  }

  /** `get_point(p.id)` after `save_point(p)` returns `p`, and `p` itself is the only
      entry whose own fields were replaced. */
  lemma SavedThenGet(before: map<nat, Point>, after: map<nat, Point>, p: Point, k: nat)
    requires SavedState(before, after, p)
    requires k in before && k != p.id
    requires forall layer :: k !in NeighborsAt(p, layer)
    ensures after[p.id] == p
    ensures forall layer :: NeighborsAt(after[k], layer) == NeighborsAt(before[k], layer)
  {
    forall layer ensures NeighborsAt(after[k], layer) == NeighborsAt(before[k], layer) {
      assert Count(LayerOf(p.neighbors, layer), k) == 0 by {
        assert LayerOf(p.neighbors, layer) == NeighborsAt(p, layer);
      }
    }
  }

  /** Saving the same point twice appends its id twice: the store does not deduplicate. */
  lemma SaveTwiceAppendsTwice(s0: map<nat, Point>, s1: map<nat, Point>, s2: map<nat, Point>,
                              p: Point, k: nat, layer: nat)
    requires SavedState(s0, s1, p) && SavedState(s1, s2, p)
    requires k in s0 && k != p.id
    ensures NeighborsAt(s2[k], layer) ==
            NeighborsAt(s0[k], layer) + Repeat(p.id, 2 * Count(NeighborsAt(p, layer), k))
  {
    var c := Count(NeighborsAt(p, layer), k);
    assert LayerOf(p.neighbors, layer) == NeighborsAt(p, layer);
    RepeatConcat(p.id, c, c);
  }

  /** Saving a new point whose listed neighbours are all stored keeps a closed,
      symmetric store closed and symmetric. */
  lemma SaveKeepsSymmetry(before: map<nat, Point>, after: map<nat, Point>, p: Point)
    requires KeyedById(before) && Closed(before) && Symmetric(before)
    requires p.id !in before
    requires NoSelfListing(p) && ListedStored(before, p)
    requires SavedState(before, after, p)
    ensures KeyedById(after) && Closed(after) && Symmetric(after)
  {
    SaveKeepsClosed(before, after, p);
    forall a, b, layer | a in after && b in after
      ensures Count(NeighborsAt(after[a], layer), b) == Count(NeighborsAt(after[b], layer), a)
    {
      AfterCount(before, after, p, a, b, layer);
      AfterCount(before, after, p, b, a, layer);
      if a != p.id && b != p.id {
        assert Count(NeighborsAt(before[a], layer), b) == Count(NeighborsAt(before[b], layer), a);
      }
    }
  }

  lemma SaveKeepsClosed(before: map<nat, Point>, after: map<nat, Point>, p: Point)
    requires KeyedById(before) && Closed(before)
    requires ListedStored(before, p)
    requires SavedState(before, after, p)
    ensures KeyedById(after) && Closed(after)
  {
    forall a, layer, n | a in after && n in NeighborsAt(after[a], layer)
      ensures n in after
    {
      if a != p.id {
        var c := Count(LayerOf(p.neighbors, layer), a);
        assert NeighborsAt(after[a], layer) == NeighborsAt(before[a], layer) + Repeat(p.id, c);
        assert n in NeighborsAt(before[a], layer) || n in Repeat(p.id, c);
      }
    }
  }

  /** How often `after[a]` lists `b` at `layer`, in terms of `before` and `p`. */
  lemma AfterCount(before: map<nat, Point>, after: map<nat, Point>, p: Point,
                   a: nat, b: nat, layer: nat)
    requires Closed(before)
    requires p.id !in before
    requires SavedState(before, after, p)
    requires a in after && b in after
    ensures Count(NeighborsAt(after[a], layer), b) ==
            if a == p.id then Count(NeighborsAt(p, layer), b)
            else if b == p.id then Count(NeighborsAt(p, layer), a)
            else Count(NeighborsAt(before[a], layer), b)
  {
    if a != p.id {
      var c := Count(NeighborsAt(p, layer), a);
      var old_list := NeighborsAt(before[a], layer);
      assert LayerOf(p.neighbors, layer) == NeighborsAt(p, layer);
      assert EntryAppended(before[a], after[a], a, p.id, p.neighbors);
      assert NeighborsAt(after[a], layer) == old_list + Repeat(p.id, c);
      CountAppend(old_list, Repeat(p.id, c), b);
      CountRepeat(p.id, c, b);
      if b == p.id {
        assert p.id !in old_list;
        assert Count(old_list, b) == 0;
      }
    }
  }
}
