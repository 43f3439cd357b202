/** The explicit layered graph: nodes with a top layer, and per-layer adjacency lists
    kept symmetric, counted with multiplicity (an edge added twice is listed twice on
    both sides). */
module Graph {
  import opened Common
  import opened Points

  /** A stored point and the highest layer it takes part in. */
  datatype Node = Node(topLayer: nat, point: Point)

  /** The list of `a` in one layer's adjacency map; a missing key reads as empty. */
  function ListOf(e: map<nat, seq<nat>>, a: nat): seq<nat>
  {
    if a in e then e[a] else []
  }

  /** How many times `a` lists `b`. */
  function Mult(e: map<nat, seq<nat>>, a: nat, b: nat): nat
  {
    Count(ListOf(e, a), b)
  }

  /** A well-formed layer: every listing node is stored and reaches the layer, every listed
      id too and differs from its owner, and every edge is listed as often from each side. */
  ghost predicate SlotOk(e: map<nat, seq<nat>>, layer: nat, nodes: map<nat, Node>)
  {
    && (forall a :: a in e ==> a in nodes && nodes[a].topLayer >= layer)
    && (forall a, i :: a in e && 0 <= i < |e[a]| ==>
          e[a][i] in nodes && nodes[e[a][i]].topLayer >= layer && e[a][i] != a)
    && (forall a, b :: Mult(e, a, b) == Mult(e, b, a))
  }

  /** `add_edge` on one layer's map: create the missing lists, then append each id to the
      other's list. */
  function AddedEdge(e: map<nat, seq<nat>>, a: nat, b: nat): (r: map<nat, seq<nat>>)
    requires a != b
    ensures r.Keys == e.Keys + {a, b}
    ensures r[a] == ListOf(e, a) + [b] && r[b] == ListOf(e, b) + [a]
    ensures forall x :: x in e && x != a && x != b ==> r[x] == e[x]
  {
    var e1 := e[a := ListOf(e, a) + [b]];
    e1[b := ListOf(e1, b) + [a]]
  }

  /** `remove_edge_by_id` on one layer's map: one occurrence removed from each side. */
  function RemovedEdge(e: map<nat, seq<nat>>, a: nat, b: nat): (r: map<nat, seq<nat>>)
    requires a != b && a in e && b in e
    ensures r.Keys == e.Keys
    ensures r[a] == RemoveFirst(e[a], b) && r[b] == RemoveFirst(e[b], a)
    ensures forall x :: x in e && x != a && x != b ==> r[x] == e[x]
  {
    e[a := RemoveFirst(e[a], b)][b := RemoveFirst(e[b], a)]
  }

  /** The first loop of `set_neighbors` on one layer's map: `a`'s list emptied and `a`
      dropped from every other list. */
  function Cleared(e: map<nat, seq<nat>>, a: nat): (r: map<nat, seq<nat>>)
    ensures r.Keys == e.Keys
    ensures a in e ==> r[a] == []
    ensures forall b :: b in e && b != a ==> r[b] == Without(e[b], a)
  {
    map b | b in e :: if b == a then [] else Without(e[b], a)
  }

  /** The second loop of `set_neighbors`: an edge from `a` to each id of `ids`, in order. */
  function Linked(e: map<nat, seq<nat>>, a: nat, ids: seq<nat>): (r: map<nat, seq<nat>>)
    requires a !in ids
  {
    if ids == [] then e
    else AddedEdge(Linked(e, a, ids[..|ids| - 1]), a, ids[|ids| - 1])
  }

  /** The adjacency map of `layer`, empty for an unset or missing slot. */
  function SlotAt(edges: seq<Option<map<nat, seq<nat>>>>, layer: nat): map<nat, seq<nat>>
  {
    if layer < |edges| && edges[layer].Some? then edges[layer].value else map[]
  }

  /** The multiplicity of the pair (`a`, `b`) at `layer`, zero for an unset layer. */
  function MultAt(edges: seq<Option<map<nat, seq<nat>>>>, layer: nat, a: nat, b: nat): nat
  {
    if layer < |edges| && edges[layer].Some? then Mult(edges[layer].value, a, b) else 0
  }

  /** What `add_edge` checks: two distinct stored nodes that both reach `layer`. */
  predicate Accepts(nodes: map<nat, Node>, layer: nat, a: nat, b: nat)
  {
    a != b && a in nodes && b in nodes && layer <= nodes[a].topLayer && layer <= nodes[b].topLayer
  }

  /** The index of the first new neighbour `add_edge` refuses for `a` at `layer`, `|ns|`
      when there is none. */
  function FirstRefused(ns: seq<Point>, a: nat, layer: nat, nodes: map<nat, Node>): (k: nat)
    ensures k <= |ns|
    ensures forall i :: 0 <= i < k ==> Accepts(nodes, layer, a, ns[i].id)
    ensures k < |ns| ==> !Accepts(nodes, layer, a, ns[k].id)
  {
    if ns == [] then 0
    else if !Accepts(nodes, layer, a, ns[0].id) then 0
    else 1 + FirstRefused(ns[1..], a, layer, nodes)
  }

  /** Nodes keyed by id, and `top` the highest top layer among them, -1 when there are none. */
  ghost predicate NodesOk(nodes: map<nat, Node>, top: int, maxTop: nat)
  {
    && -1 <= top <= maxTop
    && (forall id :: id in nodes ==> nodes[id].point.id == id && nodes[id].topLayer <= top)
    && (nodes == map[] <==> top == -1)
    && (nodes != map[] ==> exists id :: id in nodes && nodes[id].topLayer == top)
  }

  /** Every set layer slot is well formed. */
  ghost predicate EdgesOk(edges: seq<Option<map<nat, seq<nat>>>>, nodes: map<nat, Node>)
  {
    forall l :: 0 <= l < |edges| ==> SlotOkAt(edges, l, nodes)
  }

  ghost predicate SlotOkAt(edges: seq<Option<map<nat, seq<nat>>>>, l: nat, nodes: map<nat, Node>)
    requires l < |edges|
  {
    edges[l].Some? ==> SlotOk(edges[l].value, l, nodes)
  }

  /** `after` is `before` with the slot of `layer` set to `e` and every other slot kept. */
  ghost predicate LayerSet(before: seq<Option<map<nat, seq<nat>>>>, after: seq<Option<map<nat, seq<nat>>>>,
                           layer: nat, e: map<nat, seq<nat>>)
  {
    && |after| == |before| && layer < |after| && after[layer] == Some(e)
    && forall l :: 0 <= l < |after| && l != layer ==> after[l] == before[l]
  }

  lemma EdgesOkUpdate(edges: seq<Option<map<nat, seq<nat>>>>, nodes: map<nat, Node>, layer: nat,
                      e: map<nat, seq<nat>>)
    requires EdgesOk(edges, nodes) && layer < |edges| && SlotOk(e, layer, nodes)
    ensures EdgesOk(edges[layer := Some(e)], nodes)
    ensures LayerSet(edges, edges[layer := Some(e)], layer, e)
  {
    var after := edges[layer := Some(e)];
    forall l | 0 <= l < |after| ensures SlotOkAt(after, l, nodes) {
      if l != layer {
        assert SlotOkAt(edges, l, nodes);
      }
    }
  }

  /** Setting one slot twice is setting it once, to the second value. */
  lemma LayerSetTwice(e0: seq<Option<map<nat, seq<nat>>>>, e1: seq<Option<map<nat, seq<nat>>>>,
                      e2: seq<Option<map<nat, seq<nat>>>>, layer: nat, a: map<nat, seq<nat>>, b: map<nat, seq<nat>>)
    requires LayerSet(e0, e1, layer, a) && LayerSet(e1, e2, layer, b)
    ensures LayerSet(e0, e2, layer, b)
  {
  }

  /** The error `remove_edge_by_id` raises, checked in its order: a refused pair of nodes,
      an unset layer, a node with no list there, an edge not listed. It raises nothing
      exactly when the nodes are accepted and the edge is listed. */
  function RemovalError(edges: seq<Option<map<nat, seq<nat>>>>, nodes: map<nat, Node>, layer: nat,
                        id1: nat, id2: nat): (r: Option<Error>)
    ensures r.None? <==>
      id1 != id2 && id1 in nodes && id2 in nodes &&
      layer <= nodes[id1].topLayer && layer <= nodes[id2].topLayer && MultAt(edges, layer, id1, id2) > 0
    ensures r.None? ==> layer < |edges| && edges[layer].Some? && id1 in edges[layer].value
    ensures r.Some? && id1 != id2 && id1 in nodes && id2 in nodes &&
            layer <= nodes[id1].topLayer && layer <= nodes[id2].topLayer ==>
              r.value == NoLayer(layer) || r.value == NotFound(id1) || r.value == NotInList(id2)
  {
    if id1 == id2 || id1 !in nodes || id2 !in nodes ||
       layer > nodes[id1].topLayer || layer > nodes[id2].topLayer then Some(AssertionFailed)
    else if layer >= |edges| || edges[layer].None? then Some(NoLayer(layer))
    else if id1 !in edges[layer].value then Some(NotFound(id1))
    else if id2 !in edges[layer].value[id1] then
      assert Mult(edges[layer].value, id1, id2) == 0;
      Some(NotInList(id2))
    else
      assert edges[layer].value[id1] == ListOf(edges[layer].value, id1);
      None
  }

  class LayeredGraph {
    const maxTopLayer: nat
    var currTopLayer: int
    var nodes: map<nat, Node>
    var edges: seq<Option<map<nat, seq<nat>>>>
    var entryPoint: Option<Point>

    /** The current top layer is the highest top layer of a node, -1 for an empty graph;
        nodes are keyed by id; there is one slot per layer, and every set slot is well formed. */
    ghost predicate Valid()
      reads this
    {
      && NodesOk(nodes, currTopLayer, maxTopLayer)
      && |edges| == maxTopLayer + 1
      && EdgesOk(edges, nodes)
      && (entryPoint.Some? ==> entryPoint.value.id in nodes)
    }

    /** A new graph: top layer -1, no nodes, no entry point, `maxTopLayer + 1` unset slots. */
    constructor (maxTopLayer: nat)
      ensures Valid()
      ensures this.maxTopLayer == maxTopLayer && currTopLayer == -1
      ensures nodes == map[] && entryPoint == None
      ensures edges == Repeat(None, maxTopLayer + 1)
    {
      this.maxTopLayer := maxTopLayer;
      currTopLayer := -1;
      nodes := map[];
      edges := Repeat(None, maxTopLayer + 1);
      entryPoint := None;
    }

    /** The `top_layer` property. */
    function TopLayer(): (t: int)
      requires Valid()
      reads this
      ensures -1 <= t <= maxTopLayer
      ensures forall id :: id in nodes ==> nodes[id].topLayer <= t
      ensures t == -1 <==> nodes == map[]
    {
      currTopLayer
    }

    /** The entry-point setter: only a stored node whose top layer is the current top
        layer may become the entry point. */
    method SetEntryPoint(p: Point) returns (r: Outcome)
      requires Valid()
      modifies this`entryPoint
      ensures Valid()
      ensures r.Pass? <==> p.id in nodes && nodes[p.id].topLayer == currTopLayer
      ensures r.Pass? ==> entryPoint == Some(p)
      ensures r.Fail? ==> r.error == AssertionFailed && entryPoint == old(entryPoint)
    {
      if p.id !in nodes || nodes[p.id].topLayer != currTopLayer {
        return Fail(AssertionFailed);
      }
      entryPoint := Some(p);
      r := Pass;
    }

    /** `add_point`: a new id with a top layer in `[0, maxTopLayer]`; the current top layer
        becomes the larger of the old one and `topLayer`. */
    method AddPoint(topLayer: int, p: Point) returns (r: Outcome)
      requires Valid()
      modifies this`nodes, this`currTopLayer
      ensures Valid()
      ensures r.Pass? <==> p.id !in old(nodes) && 0 <= topLayer <= maxTopLayer
      ensures r.Pass? ==> nodes == old(nodes)[p.id := Node(topLayer, p)]
      ensures r.Pass? ==> currTopLayer == if topLayer > old(currTopLayer) then topLayer else old(currTopLayer)
      ensures r.Fail? ==> r.error == AssertionFailed && nodes == old(nodes) && currTopLayer == old(currTopLayer)
    {
      if p.id in nodes || !(0 <= topLayer <= maxTopLayer) {
        return Fail(AssertionFailed);
      }
      ghost var before := nodes;
      if topLayer > currTopLayer {
        currTopLayer := topLayer;
      }
      nodes := nodes[p.id := Node(topLayer, p)];
      assert nodes[p.id].topLayer <= currTopLayer;
      if topLayer < currTopLayer {
        ghost var w :| w in before && before[w].topLayer == currTopLayer;
        assert nodes[w].topLayer == currTopLayer;
      }
      forall l | 0 <= l < |edges| ensures SlotOkAt(edges, l, nodes) {
        assert SlotOkAt(edges, l, before);
      }
      assert NodesOk(nodes, currTopLayer, maxTopLayer);
      r := Pass;
    }

    /** `add_edge`: an undirected edge between two distinct stored nodes that both reach
        `layer`, listed once more on each side. */
    method AddEdge(layer: nat, p1: Point, p2: Point) returns (r: Outcome)
      requires Valid()
      modifies this`edges
      ensures Valid()
      ensures r.Pass? <==> Accepts(nodes, layer, p1.id, p2.id)
      ensures r.Pass? ==>
                layer < |old(edges)| &&
                LayerSet(old(edges), edges, layer, AddedEdge(SlotAt(old(edges), layer), p1.id, p2.id))
      ensures r.Fail? ==> r.error == AssertionFailed && edges == old(edges)
    {
      if !Accepts(nodes, layer, p1.id, p2.id) {
        return Fail(AssertionFailed);
      }
      var e := SlotAt(edges, layer);
      assert SlotOkAt(edges, layer, nodes);
      AddedEdgeOk(e, layer, nodes, p1.id, p2.id);
      EdgesOkUpdate(edges, nodes, layer, AddedEdge(e, p1.id, p2.id));
      edges := edges[layer := Some(AddedEdge(e, p1.id, p2.id))];
      r := Pass;
    }

    /** `remove_edge_by_id`: one listing of the edge removed from each side; it fails,
        changing nothing, exactly when `RemovalError` names an error. */
    method RemoveEdgeById(layer: nat, id1: nat, id2: nat) returns (r: Outcome)
      requires Valid()
      modifies this`edges
      ensures Valid()
      ensures r.Fail? <==> RemovalError(old(edges), nodes, layer, id1, id2).Some?
      ensures r.Fail? ==> r.error == RemovalError(old(edges), nodes, layer, id1, id2).value && edges == old(edges)
      ensures r.Pass? ==>
                layer < |old(edges)| && old(edges)[layer].Some? &&
                id1 in old(edges)[layer].value && id2 in old(edges)[layer].value &&
                LayerSet(old(edges), edges, layer, RemovedEdge(old(edges)[layer].value, id1, id2))
    {
      var err := RemovalError(edges, nodes, layer, id1, id2);
      if err.Some? {
        return Fail(err.value);
      }
      var e := edges[layer].value;
      assert SlotOkAt(edges, layer, nodes);
      assert Mult(e, id2, id1) == Mult(e, id1, id2);
      RemovedEdgeOk(e, layer, nodes, id1, id2);
      EdgesOkUpdate(edges, nodes, layer, RemovedEdge(e, id1, id2));
      edges := edges[layer := Some(RemovedEdge(e, id1, id2))];
      r := Pass;
    }

    /** `remove_edge`: `remove_edge_by_id` on the points' ids. On success the pair is
        listed once less from each side. */
    method RemoveEdge(layer: nat, p1: Point, p2: Point) returns (r: Outcome)
      requires Valid()
      modifies this`edges
      ensures Valid()
      ensures r.Fail? <==> RemovalError(old(edges), nodes, layer, p1.id, p2.id).Some?
      ensures r.Pass? ==>
                MultAt(edges, layer, p1.id, p2.id) + 1 == old(MultAt(edges, layer, p1.id, p2.id)) &&
                MultAt(edges, layer, p2.id, p1.id) + 1 == old(MultAt(edges, layer, p2.id, p1.id))
      ensures r.Fail? ==> edges == old(edges)
    {
      if layer < |edges| {
        assert SlotOkAt(edges, layer, nodes);
      }
      r := RemoveEdgeById(layer, p1.id, p2.id);
      if r.Pass? {
        RemovedEdgeCount(old(edges)[layer].value, p1.id, p2.id);
      }
    }

    /** `get_neighbors`: the stored points `p` lists at `layer`, in the order the edges
        were added. */
    method GetNeighbors(layer: nat, p: Point) returns (r: Result<seq<Point>>)
      requires Valid()
      ensures r.Ok? <==>
        p.id in nodes && layer <= nodes[p.id].topLayer &&
        edges[layer].Some? && p.id in edges[layer].value
      ensures r.Ok? ==> Ids(r.value) == edges[layer].value[p.id]
      ensures r.Ok? ==> forall i :: 0 <= i < |r.value| ==> r.value[i].id in nodes && r.value[i] == nodes[r.value[i].id].point
      ensures r.Err? ==> r.error == AssertionFailed || r.error == NoLayer(layer)
    {
      if p.id !in nodes || layer > maxTopLayer || layer > nodes[p.id].topLayer {
        return Err(AssertionFailed);
      }
      if edges[layer].None? {
        return Err(NoLayer(layer));
      }
      var e := edges[layer].value;
      if p.id !in e {
        return Err(AssertionFailed);
      }
      assert SlotOkAt(edges, layer, nodes);
      var ids := e[p.id];
      var stored := nodes;
      var points := seq(|ids|, i requires 0 <= i < |ids| => stored[ids[i]].point);
      assert forall i :: 0 <= i < |ids| ==> ids[i] in nodes && points[i] == nodes[ids[i]].point && points[i].id == ids[i];
      r := Ok(points);
    }

    /** `set_neighbors`: remove every edge `p` has at `layer`, then add one to each new
        neighbour in order. Reading the old list fails on an unset layer or a node with no
        list there; an `add_edge` that refuses a neighbour stops the call part-way. */
    method SetNeighbors(layer: nat, p: Point, ns: seq<Point>) returns (r: Outcome)
      requires Valid()
      modifies this`edges
      ensures Valid()
      ensures var listed := layer < |old(edges)| && old(edges)[layer].Some? && p.id in old(edges)[layer].value;
        && (!listed ==> edges == old(edges) && r.Fail? && (r.error == NoLayer(layer) || r.error == NotFound(p.id)))
        && (listed ==>
              var k := FirstRefused(ns, p.id, layer, nodes);
              && LayerSet(old(edges), edges, layer, Linked(Cleared(old(edges)[layer].value, p.id), p.id, Ids(ns[..k])))
              && (r.Pass? <==> k == |ns|)
              && (r.Fail? ==> r.error == AssertionFailed))
    {
      if layer > maxTopLayer || edges[layer].None? {
        return Fail(NoLayer(layer));
      }
      if p.id !in edges[layer].value {
        return Fail(NotFound(p.id));
      }
      ClearListing(layer, p.id);
      ghost var mid := edges;
      r := LinkAll(layer, p, ns);
      LayerSetTwice(old(edges), mid, edges, layer, mid[layer].value,
                    Linked(mid[layer].value, p.id, Ids(ns[..FirstRefused(ns, p.id, layer, nodes)])));
    }

    /** The first loop of `set_neighbors`: `remove_edge_by_id` for each id of a copy of
        `a`'s list. Each removal succeeds, the copy listing each edge as often as it is
        still present. */
    method ClearListing(layer: nat, a: nat)
      requires Valid() && layer < |edges| && edges[layer].Some? && a in edges[layer].value
      modifies this`edges
      ensures Valid()
      ensures LayerSet(old(edges), edges, layer, Cleared(old(edges)[layer].value, a))
    {
      assert SlotOkAt(edges, layer, nodes);
      ghost var e := edges[layer].value;
      var old_ids := edges[layer].value[a];
      for i := 0 to |old_ids|
        invariant Valid()
        invariant edges[layer].Some? && LayerSet(old(edges), edges, layer, edges[layer].value)
        invariant ClearedUpTo(e, a, old_ids, i, edges[layer].value)
      {
        var c := old_ids[i];
        ghost var cur := edges[layer].value;
        assert old_ids[i..][0] == c;
        assert SlotOkAt(edges, layer, nodes);
        assert Mult(cur, a, c) > 0;
        var removed := RemoveEdgeById(layer, a, c);
        assert removed.Pass?;
        ClearStep(e, a, old_ids, i, cur);
      }
      assert SlotOk(e, layer, nodes);
      ClearedByRemovals(e, a, layer, nodes, old_ids, edges[layer].value);
    }

    /** The second loop of `set_neighbors`: `add_edge` from `p` to each new neighbour in
        order, stopping at the first one refused. */
    method LinkAll(layer: nat, p: Point, ns: seq<Point>) returns (r: Outcome)
      requires Valid() && layer < |edges| && edges[layer].Some? && p.id in edges[layer].value
      modifies this`edges
      ensures Valid()
      ensures var k := FirstRefused(ns, p.id, layer, nodes);
        && LayerSet(old(edges), edges, layer, Linked(old(edges)[layer].value, p.id, Ids(ns[..k])))
        && (r.Pass? <==> k == |ns|)
        && (r.Fail? ==> r.error == AssertionFailed)
    {
      assert SlotOkAt(edges, layer, nodes);
      ghost var start := edges[layer].value;
      ghost var ids: seq<nat> := [];
      ghost var cur := start;
      var k := 0;
      while k < |ns|
        invariant k <= |ns| && k <= FirstRefused(ns, p.id, layer, nodes)
        invariant ids == Ids(ns[..k]) && p.id !in ids && cur == Linked(start, p.id, ids)
        invariant Valid()
        invariant LayerSet(old(edges), edges, layer, cur)
      {
        ghost var before := edges;
        FirstRefusedNext(ns, p.id, layer, nodes, k);
        r := AddEdge(layer, p, ns[k]);
        if r.Fail? {
          assert k == FirstRefused(ns, p.id, layer, nodes);
          return;
        }
        LinkedSnoc(start, p.id, ids, ns[k].id);
        IdsSnoc(ns, k);
        ids := ids + [ns[k].id];
        LayerSetTwice(old(edges), before, edges, layer, cur, AddedEdge(cur, p.id, ns[k].id));
        cur := AddedEdge(cur, p.id, ns[k].id);
        k := k + 1;
      }
      assert ns[..k] == ns && k == FirstRefused(ns, p.id, layer, nodes);
      r := Pass;
    }
  }

  lemma LinkedSnoc(start: map<nat, seq<nat>>, a: nat, ids: seq<nat>, b: nat)
    requires a !in ids && a != b
    ensures Linked(start, a, ids + [b]) == AddedEdge(Linked(start, a, ids), a, b)
  {
    assert (ids + [b])[..|ids|] == ids;
  }

  /** What `set_neighbors` leaves at its layer: `a` lists exactly the new ids in order;
      every other node has lost all its listings of `a` and then lists `a` once for each
      time it occurs among the new ids. */
  lemma {:induction false} SetNeighborsResult(e: map<nat, seq<nat>>, a: nat, ids: seq<nat>)
    requires a in e && a !in ids
    ensures ListsAfter(Linked(Cleared(e, a), a, ids), e, a, ids)
  {
    var c := Cleared(e, a);
    if ids == [] {
      forall b | b != a
        ensures ListOf(c, b) == Without(ListOf(e, b), a) + Repeat(a, Count(ids, b))
      {
        assert Repeat(a, 0) == [];
        ListOfCleared(e, a, b);
      }
      ListOfCleared(e, a, a);
    } else {
      var init := ids[..|ids| - 1];
      var x := ids[|ids| - 1];
      assert ids == init + [x];
      SetNeighborsResult(e, a, init);
      var before := Linked(c, a, init);
      var r := Linked(c, a, ids);
      assert r == AddedEdge(before, a, x);
      forall b | b != a
        ensures ListOf(r, b) == Without(ListOf(e, b), a) + Repeat(a, Count(ids, b))
      {
        ListedOnceMore(before, a, x, b, Without(ListOf(e, b), a), init);
      }
      ListOfAdded(before, a, x, a);
    }
  }

  /** One added edge `a`-`x` adds one listing of `a` to `x` and none to any other `b`. */
  lemma ListedOnceMore(before: map<nat, seq<nat>>, a: nat, x: nat, b: nat, w: seq<nat>, init: seq<nat>)
    requires a != x && b != a
    requires ListOf(before, b) == w + Repeat(a, Count(init, b))
    ensures ListOf(AddedEdge(before, a, x), b) == w + Repeat(a, Count(init + [x], b))
  {
    ListOfAdded(before, a, x, b);
    CountSnoc(init, x, b);
    if b == x {
      RepeatAppend(w, a, Count(init, b));
    } else {
      assert ListOf(before, b) + [] == ListOf(before, b);
    }
  }

  /** The lists `set_neighbors` leaves at its layer: `a` lists exactly the new ids in order;
      every other node has lost all its listings of `a` and then lists `a` once for each
      time it occurs among the new ids. */
  ghost predicate ListsAfter(r: map<nat, seq<nat>>, e: map<nat, seq<nat>>, a: nat, ids: seq<nat>)
  {
    && ListOf(r, a) == ids
    && forall b :: b != a ==> ListOf(r, b) == Without(ListOf(e, b), a) + Repeat(a, Count(ids, b))
  }

  /** Hence a former neighbour of `a` that is not a new one no longer lists `a`. */
  lemma FormerNeighborsForget(e: map<nat, seq<nat>>, a: nat, ids: seq<nat>, b: nat)
    requires a in e && a !in ids && b != a
    ensures Mult(Linked(Cleared(e, a), a, ids), b, a) == Count(ids, b)
  {
    SetNeighborsResult(e, a, ids);
    assert ListOf(Linked(Cleared(e, a), a, ids), b) == Without(ListOf(e, b), a) + Repeat(a, Count(ids, b));
    CountAppend(Without(ListOf(e, b), a), Repeat(a, Count(ids, b)), a);
    CountRepeat(a, Count(ids, b), a);
  }

  lemma ListOfAdded(e: map<nat, seq<nat>>, a: nat, x: nat, b: nat)
    requires a != x
    ensures ListOf(AddedEdge(e, a, x), b) ==
      ListOf(e, b) + (if b == a then [x] else if b == x then [a] else [])
  {
  }

  lemma ListOfCleared(e: map<nat, seq<nat>>, a: nat, b: nat)
    requires a in e
    ensures ListOf(Cleared(e, a), b) == if b == a then [] else Without(ListOf(e, b), a)
  {
  }

  /** The state of the first loop of `set_neighbors` after `i` removals: `a`'s list is
      what remains of the copy, and every other list has lost its first listings of `a`,
      one for each time the removed part of the copy lists it. */
  ghost predicate ClearedUpTo(e: map<nat, seq<nat>>, a: nat, old_ids: seq<nat>, i: nat,
                              cur: map<nat, seq<nat>>)
  {
    && i <= |old_ids|
    && cur.Keys == e.Keys
    && a in cur && cur[a] == old_ids[i..]
    && forall b :: b in e && b != a ==> cur[b] == RemoveFirstN(e[b], a, Count(old_ids[..i], b))
  }

  /** One iteration of the first loop of `set_neighbors` keeps its state description. */
  lemma ClearStep(e: map<nat, seq<nat>>, a: nat, old_ids: seq<nat>, i: nat, cur: map<nat, seq<nat>>)
    requires ClearedUpTo(e, a, old_ids, i, cur) && i < |old_ids|
    requires old_ids[i] != a && old_ids[i] in cur
    ensures ClearedUpTo(e, a, old_ids, i + 1, RemovedEdge(cur, a, old_ids[i]))
  {
    var c := old_ids[i];
    var next := RemovedEdge(cur, a, c);
    assert old_ids[..i + 1] == old_ids[..i] + [c];
    assert old_ids[i..] == [c] + old_ids[i + 1..];
    forall b | b in e && b != a
      ensures next[b] == RemoveFirstN(e[b], a, Count(old_ids[..i + 1], b))
    {
      CountSnoc(old_ids[..i], c, b);
      if b == c {
        assert next[c] == RemoveFirst(cur[c], a);
        RemoveFirstNSnoc(e[c], a, Count(old_ids[..i], c));
      } else {
        assert next[b] == cur[b];
      }
    }
  }

  /** Removing `x` once more after `k` removals is `k + 1` removals. */
  lemma {:induction false} RemoveFirstNSnoc<T(!new)>(s: seq<T>, x: T, k: nat)
    ensures RemoveFirst(RemoveFirstN(s, x, k), x) == RemoveFirstN(s, x, k + 1)
    decreases k
  {
    if k > 0 {
      RemoveFirstNSnoc(RemoveFirst(s, x), x, k - 1);
    }
  }

  /** Up to the first refused index, a neighbour is accepted exactly when it comes
      before that index. */
  lemma FirstRefusedNext(ns: seq<Point>, a: nat, layer: nat, nodes: map<nat, Node>, k: nat)
    requires k < |ns| && k <= FirstRefused(ns, a, layer, nodes)
    ensures Accepts(nodes, layer, a, ns[k].id) <==> k < FirstRefused(ns, a, layer, nodes)
  {
  }

  /** After the removal loop every other list has lost all its listings of `a`: each edge
      to `a` was listed as often from `a`'s side, and that many first occurrences removed
      are all of them. */
  lemma ClearedByRemovals(e: map<nat, seq<nat>>, a: nat, layer: nat, nodes: map<nat, Node>,
                          old_ids: seq<nat>, now: map<nat, seq<nat>>)
    requires SlotOk(e, layer, nodes) && a in e && old_ids == e[a]
    requires now.Keys == e.Keys && now[a] == old_ids[|old_ids|..]
    requires forall b :: b in e && b != a ==> now[b] == RemoveFirstN(e[b], a, Count(old_ids[..|old_ids|], b))
    ensures now == Cleared(e, a)
  {
    assert old_ids[..|old_ids|] == old_ids;
    forall b | b in e && b != a ensures Count(old_ids, b) == Count(e[b], a) {
      assert Mult(e, a, b) == Mult(e, b, a);
    }
    ClearedFromCounts(e, a, old_ids, now);
  }

  lemma ClearedFromCounts(e: map<nat, seq<nat>>, a: nat, old_ids: seq<nat>, now: map<nat, seq<nat>>)
    requires a in e && now.Keys == e.Keys && now[a] == []
    requires forall b :: b in e && b != a ==> Count(old_ids, b) == Count(e[b], a)
    requires forall b :: b in e && b != a ==> now[b] == RemoveFirstN(e[b], a, Count(old_ids, b))
    ensures now == Cleared(e, a)
  {
    var c := Cleared(e, a);
    forall b | b in e ensures now[b] == c[b] {
      if b != a {
        RemoveFirstRepeatedly(e[b], a);
      }
    }
  }

  /** One more edge between two distinct nodes reaching the layer keeps it well formed,
      and lists the pair once more from each side. */
  lemma AddedEdgeOk(e: map<nat, seq<nat>>, layer: nat, nodes: map<nat, Node>, a: nat, b: nat)
    requires SlotOk(e, layer, nodes) && a != b
    requires a in nodes && b in nodes && nodes[a].topLayer >= layer && nodes[b].topLayer >= layer
    ensures SlotOk(AddedEdge(e, a, b), layer, nodes)
    ensures forall x, y :: Mult(AddedEdge(e, a, b), x, y) ==
                           Mult(e, x, y) + (if (x == a && y == b) || (x == b && y == a) then 1 else 0)
  {
    var r := AddedEdge(e, a, b);
    AddedEdgeCount(e, a, b);
    assert forall x :: x in r ==> x in nodes && nodes[x].topLayer >= layer;
    forall x, i | x in r && 0 <= i < |r[x]| ensures r[x][i] in nodes && nodes[r[x][i]].topLayer >= layer && r[x][i] != x {
      var y := r[x][i];
      if x == a {
        if i < |ListOf(e, a)| {
          assert y == e[a][i];
        } else {
          assert y == b;
        }
      } else if x == b {
        if i < |ListOf(e, b)| {
          assert y == e[b][i];
        } else {
          assert y == a;
        }
      } else {
        assert r[x] == e[x];
      }
    }
  }

  /** Adding an edge raises the multiplicity of that pair by one on each side and leaves
      every other pair alone. */
  lemma AddedEdgeCount(e: map<nat, seq<nat>>, a: nat, b: nat)
    requires a != b
    ensures forall x, y :: Mult(AddedEdge(e, a, b), x, y) ==
                           Mult(e, x, y) + (if (x == a && y == b) || (x == b && y == a) then 1 else 0)
  {
    var r := AddedEdge(e, a, b);
    forall x, y ensures Mult(r, x, y) == Mult(e, x, y) + (if (x == a && y == b) || (x == b && y == a) then 1 else 0) {
      if x == a {
        CountAppend(ListOf(e, a), [b], y);
      } else if x == b {
        CountAppend(ListOf(e, b), [a], y);
      } else {
        assert ListOf(r, x) == ListOf(e, x);
      }
    }
  }

  /** Removing one listing of an edge from each side keeps the layer well formed. */
  lemma RemovedEdgeOk(e: map<nat, seq<nat>>, layer: nat, nodes: map<nat, Node>, a: nat, b: nat)
    requires SlotOk(e, layer, nodes) && a != b && a in e && b in e
    requires Mult(e, a, b) > 0
    ensures SlotOk(RemovedEdge(e, a, b), layer, nodes)
  {
    var r := RemovedEdge(e, a, b);
    assert forall x :: x in r ==> x in nodes && nodes[x].topLayer >= layer;
    forall x, i | x in r && 0 <= i < |r[x]| ensures r[x][i] in nodes && nodes[r[x][i]].topLayer >= layer && r[x][i] != x {
      var y := r[x][i];
      if x == a {
        assert y in RemoveFirst(e[a], b);
        RemoveFirstMember(e[a], b, y);
        var j :| 0 <= j < |e[a]| && e[a][j] == y;
      } else if x == b {
        assert y in RemoveFirst(e[b], a);
        RemoveFirstMember(e[b], a, y);
        var j :| 0 <= j < |e[b]| && e[b][j] == y;
      } else {
        assert r[x] == e[x];
      }
    }
    assert forall x, y :: Mult(r, x, y) == Mult(r, y, x) by {
      assert Mult(e, b, a) > 0;
      RemovedEdgeCount(e, a, b);
    }
  }

  /** Removing an edge lowers the multiplicity of that pair by one on each side and leaves
      every other pair alone. */
  lemma RemovedEdgeCount(e: map<nat, seq<nat>>, a: nat, b: nat)
    requires a != b && a in e && b in e
    requires Mult(e, a, b) > 0 && Mult(e, b, a) > 0
    ensures forall x, y :: Mult(RemovedEdge(e, a, b), x, y) ==
                           Mult(e, x, y) - (if (x == a && y == b) || (x == b && y == a) then 1 else 0)
  {
    var r := RemovedEdge(e, a, b);
    forall x, y ensures Mult(r, x, y) == Mult(e, x, y) - (if (x == a && y == b) || (x == b && y == a) then 1 else 0) {
      if x == a {
        CountPositive(e[a], b);
        CountRemoveFirst(e[a], b, y);
      } else if x == b {
        CountPositive(e[b], a);
        CountRemoveFirst(e[b], a, y);
      } else {
        assert ListOf(r, x) == ListOf(e, x);
      }
    }
  }
}
