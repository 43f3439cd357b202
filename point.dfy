/** A vector point of the index: identity by id, per-layer neighbour ids, and a
    distance under which the root point (id 0) lies infinitely far from everything. */
module Points {

  /** Distance between two points. The source takes the Euclidean norm; the model keeps
      its square, which orders points the same way, and adds the infinite value the
      source uses for the root. */
  datatype Distance = Finite(sq: nat) | Infinite

  predicate DistLess(a: Distance, b: Distance)
  {
    match a
    case Infinite => false
    case Finite(x) => b.Infinite? || x < b.sq
  }

  /** Id reserved for the root point, the fixed entry point of every search. */
  const RootId: nat := 0

  /** `neighbors` maps a layer to the ids listed at that layer; a layer that is not a key
      reads as the empty list, as the source's `defaultdict(list)` does. */
  datatype Point = Point(id: nat, vector: seq<int>, neighbors: map<nat, seq<nat>>)

  function NeighborsAt(p: Point, layer: nat): seq<nat>
  {
    if layer in p.neighbors then p.neighbors[layer] else []
  }

  /** A freshly constructed point. */
  function NewPoint(id: nat, vector: seq<int>): (p: Point)
    ensures p.id == id && p.vector == vector
    ensures forall layer :: NeighborsAt(p, layer) == []
  {
    Point(id, vector, map[])
  }

  /** The root point the store is seeded with: id 0 and no vector. */
  function Root(): (p: Point)
    ensures p.id == RootId
    ensures forall layer :: NeighborsAt(p, layer) == []
  {
    NewPoint(RootId, [])
  }

  /** `__eq__`: two points are the same point when their ids agree. */
  predicate SamePoint(a: Point, b: Point)
  {
    a.id == b.id
  }

  /** `__hash__`: the id. */
  function Hash(p: Point): (h: int)
    ensures h >= 0
  {
    p.id
  }

  /** `__gt__`: ordering of points is the ordering of their ids. */
  predicate Greater(a: Point, b: Point)
  {
    a.id > b.id
  }

  /** Equal points hash alike, and of two different points exactly one is the greater. */
  lemma IdentityConsistent(a: Point, b: Point)
    ensures SamePoint(a, b) <==> Hash(a) == Hash(b)
    ensures SamePoint(a, b) <==> !Greater(a, b) && !Greater(b, a)
    ensures !SamePoint(a, b) ==> Greater(a, b) != Greater(b, a)
  {
  }

  /** Squared Euclidean distance of two vectors, over their common dimensions. */
  function SqDist(u: seq<int>, v: seq<int>): nat
  {
    if u == [] || v == [] then 0
    else (u[0] - v[0]) * (u[0] - v[0]) + SqDist(u[1..], v[1..])
  }

  function Dist(a: Point, b: Point): (d: Distance)
    ensures d.Infinite? <==> a.id == RootId || b.id == RootId
  {
    if a.id == RootId || b.id == RootId then Infinite
    else Finite(SqDist(a.vector, b.vector))
  }

  lemma {:induction false} SqDistSymmetric(u: seq<int>, v: seq<int>)
    ensures SqDist(u, v) == SqDist(v, u)
  {
    if u != [] && v != [] {
      SqDistSymmetric(u[1..], v[1..]);
    }
  }

  /** Distance does not depend on the order of its arguments, the root included. */
  lemma DistSymmetric(a: Point, b: Point)
    ensures Dist(a, b) == Dist(b, a)
  {
    SqDistSymmetric(a.vector, b.vector);
  }

  /** The order in which the engine and the candidate set rank points against a query
      `q`: by distance, ties broken by the smaller id. */
  predicate NearerEq(a: Point, b: Point, q: Point)
  {
    DistLess(Dist(a, q), Dist(b, q)) || (Dist(a, q) == Dist(b, q) && a.id <= b.id)
  }

  /** A point at finite distance is strictly nearer than the root. */
  lemma RootIsFurthest(a: Point, q: Point)
    requires a.id != RootId && q.id != RootId
    ensures NearerEq(a, Root(), q) && !NearerEq(Root(), a, q)
  {
  }

  lemma NearerEqTotal(a: Point, b: Point, q: Point)
    ensures NearerEq(a, b, q) || NearerEq(b, a, q)
  {
  }

  lemma NearerEqTransitive(a: Point, b: Point, c: Point, q: Point)
    requires NearerEq(a, b, q) && NearerEq(b, c, q)
    ensures NearerEq(a, c, q)
  {
  }

  ghost predicate Sorted(s: seq<Point>, q: Point)
  {
    forall i, j :: 0 <= i < j < |s| ==> NearerEq(s[i], s[j], q)
  }

  /** Every point of `a` ranks no later than every point of `b`. */
  ghost predicate AllNearerEq(a: seq<Point>, b: seq<Point>, q: Point)
  {
    forall i, j :: 0 <= i < |a| && 0 <= j < |b| ==> NearerEq(a[i], b[j], q)
  }

  function InsertSorted(x: Point, s: seq<Point>, q: Point): (r: seq<Point>)
    requires Sorted(s, q)
    ensures Sorted(r, q)
    ensures multiset(r) == multiset(s) + multiset{x}
    ensures |r| == |s| + 1
    ensures r[0] == x || (s != [] && r[0] == s[0])
  {
    if s == [] then [x]
    else if NearerEq(x, s[0], q) then
      assert Sorted([x] + s, q) by { SortedCons(x, s, q); }
      [x] + s
    else
      var rest := InsertSorted(x, s[1..], q);
      assert s == [s[0]] + s[1..];
      assert NearerEq(s[0], rest[0], q) by {
        NearerEqTotal(x, s[0], q);
      }
      assert Sorted([s[0]] + rest, q) by { SortedCons(s[0], rest, q); }
      [s[0]] + rest
  }

  lemma SortedCons(x: Point, s: seq<Point>, q: Point)
    requires Sorted(s, q)
    requires s != [] ==> NearerEq(x, s[0], q)
    ensures Sorted([x] + s, q)
  {
    var r := [x] + s;
    forall i, j | 0 <= i < j < |r| ensures NearerEq(r[i], r[j], q) {
      if i == 0 && j > 1 {
        NearerEqTransitive(x, s[0], s[j - 1], q);
      }
    }
  }

  /** Ascending order against `q`; the model's counterpart of `list.sort(key=distance)`. */
  function SortByDistance(s: seq<Point>, q: Point): (r: seq<Point>)
    ensures Sorted(r, q)
    ensures multiset(r) == multiset(s)
    ensures |r| == |s|
    decreases |s|, 1
  {
    if s == [] then [] else SortNonEmpty(s, q)
  }

  /** A non-empty list sorted: its head inserted into its sorted tail. */
  function SortNonEmpty(s: seq<Point>, q: Point): (r: seq<Point>)
    requires s != []
    ensures Sorted(r, q)
    ensures multiset(r) == multiset(s)
    ensures |r| == |s|
    decreases |s|, 0
  {
    assert s == [s[0]] + s[1..];
    InsertSorted(s[0], SortByDistance(s[1..], q), q)
  }

  /** The first `n` entries (Python's `s[:n]`). */
  function Take<T>(s: seq<T>, n: nat): (r: seq<T>)
    ensures |r| == if n < |s| then n else |s|
    ensures r == s[..|r|]
  {
    if n < |s| then s[..n] else s
  }

  /** Cutting a sorted list keeps the nearest: every kept point ranks no later than
      every dropped one. */
  lemma {:induction false} TakeKeepsNearest(s: seq<Point>, n: nat, q: Point)
    requires Sorted(s, q)
    ensures Sorted(Take(s, n), q)
    ensures AllNearerEq(Take(s, n), s[|Take(s, n)|..], q)
  {
    var k := |Take(s, n)|;
    forall i, j | 0 <= i < k && 0 <= j < |s| - k
      ensures NearerEq(Take(s, n)[i], s[k..][j], q)
    {
      assert Take(s, n)[i] == s[i] && s[k..][j] == s[k + j];
    }
  }

  function Ids(s: seq<Point>): (r: seq<nat>)
    ensures |r| == |s|
    ensures forall i :: 0 <= i < |s| ==> r[i] == s[i].id
  {
    if s == [] then [] else [s[0].id] + Ids(s[1..])
  }

  lemma IdsSnoc(ns: seq<Point>, k: nat)
    requires k < |ns|
    ensures Ids(ns[..k + 1]) == Ids(ns[..k]) + [ns[k].id]
  {
  }
}
