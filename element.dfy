/** The older draft's plane elements and `Elements`, a heap of elements keyed by their
    distance to a base element: ascending in nearest mode, descending in furthest mode. */
module ElementHeap {
  import opened Common

  /** A point of the plane; two elements are equal when their coordinates are. */
  datatype Element = Element(x: int, y: int)

  /** `__hash__`: the hash of the coordinate pair, kept here as the pair itself. */
  function Hash(e: Element): (int, int)
  {
    (e.x, e.y)
  }

  /** Equality is by coordinates, and equal elements hash alike. */
  lemma ElementIdentity(a: Element, b: Element)
    ensures a == b <==> a.x == b.x && a.y == b.y
    ensures a == b <==> Hash(a) == Hash(b)
  {
  }

  function Square(d: int): (s: nat)
    ensures s == d * d
  {
    if d < 0 then (-d) * (-d) else d * d
  }

  /** The square of the Euclidean distance, which orders elements as the distance does. */
  function SqDistance(a: Element, b: Element): nat
  {
    Square(a.x - b.x) + Square(a.y - b.y)
  }

  lemma DistanceSymmetric(a: Element, b: Element)
    ensures SqDistance(a, b) == SqDistance(b, a)
  {
    assert Square(a.x - b.x) == Square(b.x - a.x);
    assert Square(a.y - b.y) == Square(b.y - a.y);
  }

  /** The heap key of `e`: its distance to `base` in nearest mode, the negated distance in
      furthest mode. */
  function Key(e: Element, base: Element, nearest: bool): int
  {
    if nearest then SqDistance(e, base) else -(SqDistance(e, base) as int)
  }

  /** The order in which the heap gives its elements up: ascending keys. */
  ghost predicate ByKey(s: seq<Element>, base: Element, nearest: bool)
  {
    forall i, j :: 0 <= i < j < |s| ==> Key(s[i], base, nearest) <= Key(s[j], base, nearest)
  }

  /** `heappush` on the abstract heap: `e` placed after every element of no greater key. */
  function InsertByKey(e: Element, s: seq<Element>, base: Element, nearest: bool): (r: seq<Element>)
    requires ByKey(s, base, nearest)
    ensures ByKey(r, base, nearest)
    ensures multiset(r) == multiset(s) + multiset{e}
    ensures |r| == |s| + 1
  {
    if s == [] then [e]
    else if Key(e, base, nearest) < Key(s[0], base, nearest) then [e] + s
    else
      var rest := InsertByKey(e, s[1..], base, nearest);
      assert s == [s[0]] + s[1..];
      HeadStaysFirst(s[0], s[1..], e, rest, base, nearest);
      [s[0]] + rest
  }

  /** An element no later than all of `tail` and than `e` stays first before any
      arrangement of `tail` and `e` kept in key order. */
  lemma HeadStaysFirst(h: Element, tail: seq<Element>, e: Element, rest: seq<Element>,
                       base: Element, nearest: bool)
    requires ByKey([h] + tail, base, nearest) && ByKey(rest, base, nearest)
    requires Key(h, base, nearest) <= Key(e, base, nearest)
    requires multiset(rest) == multiset(tail) + multiset{e}
    ensures ByKey([h] + rest, base, nearest)
  {
    var ht := [h] + tail;
    forall j | 0 <= j < |rest| ensures Key(h, base, nearest) <= Key(rest[j], base, nearest) {
      assert rest[j] in multiset(rest);
      if rest[j] != e {
        assert rest[j] in multiset(tail);
        var i :| 0 <= i < |tail| && tail[i] == rest[j];
        assert ht[0] == h && ht[i + 1] == tail[i];
        assert Key(ht[0], base, nearest) <= Key(ht[i + 1], base, nearest);
      }
    }
  }

  class Elements {
    const base: Element
    const nearest: bool
    var items: seq<Element>

    ghost predicate Valid()
      reads this
    {
      ByKey(items, base, nearest)
    }

    /** A heap in the given mode holding `elements`, pushed one by one. */
    constructor (base: Element, nearest: bool, elements: seq<Element>)
      ensures Valid() && this.base == base && this.nearest == nearest
      ensures multiset(items) == multiset(elements) && |items| == |elements|
    {
      this.base := base;
      this.nearest := nearest;
      items := [];
      new;
      for i := 0 to |elements|
        invariant Valid() && this.base == base && this.nearest == nearest
        invariant multiset(items) == multiset(elements[..i]) && |items| == i
      {
        Push(elements[i]);
        assert elements[..i + 1] == elements[..i] + [elements[i]];
      }
      assert elements[..|elements|] == elements;
    }

    function Length(): nat
      reads this
    {
      |items|
    }

    /** `push`: one more element, keyed by the mode. */
    method Push(p: Element)
      requires Valid()
      modifies this
      ensures Valid()
      ensures items == InsertByKey(p, old(items), base, nearest)
    {
      items := InsertByKey(p, items, base, nearest);
    }

    /** `pop_nearest`: allowed in nearest mode only; removes and returns an element of
        least distance. */
    method PopNearest() returns (r: Result<Element>)
      requires Valid()
      modifies this
      ensures Valid()
      ensures !nearest ==> r == Err(AssertionFailed) && items == old(items)
      ensures nearest && old(items) == [] ==> r == Err(EmptyHeap) && items == old(items)
      ensures nearest && old(items) != [] ==>
        && r.Ok? && multiset(items) + multiset{r.value} == old(multiset(items))
        && |items| == old(|items|) - 1
        && forall i :: 0 <= i < |items| ==> SqDistance(r.value, base) <= SqDistance(items[i], base)
    {
      if !nearest {
        return Err(AssertionFailed);
      }
      r := Pop();
    }

    /** `pop_furthest`: allowed in furthest mode only; removes and returns an element of
        greatest distance. */
    method PopFurthest() returns (r: Result<Element>)
      requires Valid()
      modifies this
      ensures Valid()
      ensures nearest ==> r == Err(AssertionFailed) && items == old(items)
      ensures !nearest && old(items) == [] ==> r == Err(EmptyHeap) && items == old(items)
      ensures !nearest && old(items) != [] ==>
        && r.Ok? && multiset(items) + multiset{r.value} == old(multiset(items))
        && |items| == old(|items|) - 1
        && forall i :: 0 <= i < |items| ==> SqDistance(items[i], base) <= SqDistance(r.value, base)
    {
      if nearest {
        return Err(AssertionFailed);
      }
      r := Pop();
    }

    /** `heappop`: the element of least key. */
    method Pop() returns (r: Result<Element>)
      requires Valid()
      modifies this
      ensures Valid()
      ensures old(items) == [] ==> r == Err(EmptyHeap) && items == old(items)
      ensures old(items) != [] ==>
        && r.Ok? && multiset(items) + multiset{r.value} == old(multiset(items))
        && |items| == old(|items|) - 1
        && forall i :: 0 <= i < |items| ==> Key(r.value, base, nearest) <= Key(items[i], base, nearest)
    {
      if items == [] {
        return Err(EmptyHeap);
      }
      r := Ok(items[0]);
      assert items == [items[0]] + items[1..];
      items := items[1..];
    }

    /** `furthest`, without removing it: the heap's root in furthest mode, the largest
        entry in nearest mode. */
    function Furthest(): (r: Result<Element>)
      requires Valid()
      reads this
      ensures r.Err? <==> items == []
      ensures r.Err? ==> r.error == EmptyHeap
      ensures r.Ok? ==> r.value in items
      ensures r.Ok? ==> forall i :: 0 <= i < |items| ==> SqDistance(items[i], base) <= SqDistance(r.value, base)
    {
      if items == [] then Err(EmptyHeap)
      else if nearest then Ok(items[|items| - 1])
      else Ok(items[0])
    }

    /** `nearest` as the draft's callers mean it, without removing it: the heap's root in
        nearest mode, the largest entry in furthest mode. */
    function Nearest(): (r: Result<Element>)
      requires Valid()
      reads this
      ensures r.Err? <==> items == []
      ensures r.Err? ==> r.error == EmptyHeap
      ensures r.Ok? ==> r.value in items
      ensures r.Ok? ==> forall i :: 0 <= i < |items| ==> SqDistance(r.value, base) <= SqDistance(items[i], base)
    {
      if items == [] then Err(EmptyHeap)
      else if nearest then Ok(items[0])
      else Ok(items[|items| - 1])
    }
  }
}
