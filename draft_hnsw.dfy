/** Neighbour selection from the older draft: the simple selector, and the heuristic
    selector that the current engine names but does not define. Both draw candidates from
    `Elements` heaps in nearest mode. */
module Draft {
  import opened Common
  import opened ElementHeap

  /** Every element of `a` is at most as far from `q` as every element of `b`. */
  ghost predicate NoFarther(a: seq<Element>, b: seq<Element>, q: Element)
  {
    forall x, y :: x in a && y in b ==> SqDistance(x, q) <= SqDistance(y, q)
  }

  /** `r` is drawn from `pool` and is at most as far from `q` as everything it left out. */
  ghost predicate NearestOf(r: seq<Element>, pool: seq<Element>, q: Element)
  {
    && multiset(r) <= multiset(pool)
    && forall x, y :: x in r && y in multiset(pool) - multiset(r) ==> SqDistance(x, q) <= SqDistance(y, q)
  }

  function Min(a: nat, b: nat): nat
  {
    if a < b then a else b
  }

  /** `select_neighbors_simple`: asserts there are at least `m` candidates, then pops the
      `m` nearest from a heap of them. */
  method SelectNeighborsSimple(q: Element, candidates: seq<Element>, m: nat) returns (r: Result<seq<Element>>)
    ensures r.Err? <==> |candidates| < m
    ensures r.Err? ==> r.error == AssertionFailed
    ensures r.Ok? ==> |r.value| == m && ByKey(r.value, q, true) && NearestOf(r.value, candidates, q)
  {
    if |candidates| < m {
      return Err(AssertionFailed);
    }
    var elements := new Elements(q, true, candidates);
    var out: seq<Element> := [];
    for i := 0 to m
      invariant elements.Valid() && elements.base == q && elements.nearest
      invariant |out| == i && |elements.items| == |candidates| - i
      invariant multiset(out) + multiset(elements.items) == multiset(candidates)
      invariant ByKey(out, q, true)
      invariant NoFarther(out, elements.items, q)
    {
      ghost var before := elements.items;
      var e := elements.PopNearest();
      TakeNearest(out, before, e.value, elements.items, q);
      out := out + [e.value];
    }
    assert multiset(candidates) - multiset(out) == multiset(elements.items);
    r := Ok(out);
  }

  /** Moving the nearest remaining element to the end of the taken ones keeps them
      ascending and no farther than what remains. */
  lemma TakeNearest(out: seq<Element>, before: seq<Element>, e: Element, after: seq<Element>, q: Element)
    requires ByKey(out, q, true) && NoFarther(out, before, q)
    requires multiset(after) + multiset{e} == multiset(before)
    requires forall i :: 0 <= i < |after| ==> SqDistance(e, q) <= SqDistance(after[i], q)
    ensures ByKey(out + [e], q, true) && NoFarther(out + [e], after, q)
  {
    MemberOfSum(after, e, before);
    var s := out + [e];
    forall i, j | 0 <= i < j < |s| ensures Key(s[i], q, true) <= Key(s[j], q, true) {
      if j == |out| {
        assert s[i] in out;
      } else {
        assert s[i] == out[i] && s[j] == out[j];
      }
    }
    forall x, y | x in s && y in after ensures SqDistance(x, q) <= SqDistance(y, q) {
      if x != e {
        assert x in out && y in before;
      } else {
        var i :| 0 <= i < |after| && after[i] == y;
      }
    }
  }

  /** What a pop leaves is part of what was there, and so is what it returned. */
  lemma MemberOfSum(rest: seq<Element>, x: Element, whole: seq<Element>)
    requires multiset(rest) + multiset{x} == multiset(whole)
    ensures x in whole
    ensures forall y :: y in rest ==> y in whole
  {
    assert x in multiset(whole);
    forall y | y in rest ensures y in whole {
      assert y in multiset(rest);
      assert y in multiset(whole);
    }
  }

  /** The neighbours the layer lists for `e`; an element it does not know has none. */
  function NeighborsOf(adjacent: map<Element, seq<Element>>, e: Element): seq<Element>
  {
    if e in adjacent then adjacent[e] else []
  }

  /** The neighbour lists of the elements of `c`, one after another. */
  function AllNeighbors(c: seq<Element>, adjacent: map<Element, seq<Element>>): (r: seq<Element>)
    ensures forall y :: y in r ==> exists x :: x in c && y in NeighborsOf(adjacent, x)
  {
    if c == [] then []
    else
      var init := AllNeighbors(c[..|c| - 1], adjacent);
      var last := c[|c| - 1];
      assert forall y :: y in init ==> exists x :: x in c && y in NeighborsOf(adjacent, x) by {
        forall y | y in init ensures exists x :: x in c && y in NeighborsOf(adjacent, x) {
          var x :| x in c[..|c| - 1] && y in NeighborsOf(adjacent, x);
          assert x in c;
        }
      }
      init + NeighborsOf(adjacent, last)
  }

  /** `pool` with each element of `ns` that it does not already hold pushed, in order. */
  function Extended(pool: seq<Element>, ns: seq<Element>): (r: seq<Element>)
    ensures forall y :: y in r <==> y in pool || y in ns
  {
    if ns == [] then pool
    else
      var e := Extended(pool, ns[..|ns| - 1]);
      var x := ns[|ns| - 1];
      assert forall y :: y in ns <==> y in ns[..|ns| - 1] || y == x by {
        assert ns == ns[..|ns| - 1] + [x];
      }
      if x in e then e else e + [x]
  }

  /** The elements the heuristic chooses among: the candidates, and with `extend` every
      neighbour of a candidate not already among them. */
  function Pool(c: seq<Element>, adjacent: map<Element, seq<Element>>, extend: bool): (r: seq<Element>)
    ensures forall y :: y in r ==> y in c || (extend && exists x :: x in c && y in NeighborsOf(adjacent, x))
  {
    if extend then Extended(c, AllNeighbors(c, adjacent)) else c
  }

  /** The extension loop: for each candidate in order, push each of its neighbours that the
      heap does not hold yet. */
  method Extend(candidates: Elements, c: seq<Element>, adjacent: map<Element, seq<Element>>)
    requires candidates.Valid() && multiset(candidates.items) == multiset(c)
    modifies candidates
    ensures candidates.Valid() && multiset(candidates.items) == multiset(Pool(c, adjacent, true))
  {
    for i := 0 to |c|
      invariant candidates.Valid()
      invariant multiset(candidates.items) == multiset(Extended(c, AllNeighbors(c[..i], adjacent)))
    {
      var ns := NeighborsOf(adjacent, c[i]);
      ghost var prev := AllNeighbors(c[..i], adjacent);
      ExtendWith(candidates, Extended(c, prev), ns);
      AllNeighborsSnoc(c, i, adjacent);
      ExtendedAppend(c, prev, ns);
    }
    assert c[..|c|] == c;
  }

  lemma AllNeighborsSnoc(c: seq<Element>, i: nat, adjacent: map<Element, seq<Element>>)
    requires i < |c|
    ensures AllNeighbors(c[..i + 1], adjacent) == AllNeighbors(c[..i], adjacent) + NeighborsOf(adjacent, c[i])
  {
    assert c[..i + 1][..i] == c[..i];
  }

  /** The inner extension loop: push each of `ns` that the heap does not hold yet. */
  method ExtendWith(candidates: Elements, ghost acc: seq<Element>, ns: seq<Element>)
    requires candidates.Valid() && multiset(candidates.items) == multiset(acc)
    modifies candidates
    ensures candidates.Valid() && multiset(candidates.items) == multiset(Extended(acc, ns))
  {
    for j := 0 to |ns|
      invariant candidates.Valid()
      invariant multiset(candidates.items) == multiset(Extended(acc, ns[..j]))
    {
      ghost var e := Extended(acc, ns[..j]);
      assert ns[..j + 1][..j] == ns[..j];
      assert ns[j] in candidates.items <==> ns[j] in e by {
        assert ns[j] in candidates.items <==> ns[j] in multiset(candidates.items);
      }
      if ns[j] !in candidates.items {
        candidates.Push(ns[j]);
      }
    }
    assert ns[..|ns|] == ns;
  }

  lemma {:induction false} ExtendedAppend(pool: seq<Element>, a: seq<Element>, b: seq<Element>)
    ensures Extended(pool, a + b) == Extended(Extended(pool, a), b)
  {
    if b == [] {
      assert a + b == a;
    } else {
      var init := b[..|b| - 1];
      ExtendedAppend(pool, a, init);
      assert (a + b)[..|a + b| - 1] == a + init;
      assert (a + b)[|a + b| - 1] == b[|b| - 1];
    }
  }

  /** How the heap parts of the heuristic relate to its pool: together they hold the pool,
      and everything admitted is no farther than anything still waiting or discarded,
      everything discarded no farther than anything still waiting. */
  ghost predicate Parts(pool: seq<Element>, result: seq<Element>, waiting: seq<Element>,
                        discarded: seq<Element>, q: Element)
  {
    && multiset(pool) == multiset(result) + multiset(waiting) + multiset(discarded)
    && NoFarther(result, waiting, q) && NoFarther(result, discarded, q) && NoFarther(discarded, waiting, q)
  }

  /** `select_neighbors_heuristic`, with each candidate removed as it is examined. An
      element is admitted when nothing is admitted yet or it is strictly nearer than the
      nearest admitted one; otherwise it is discarded. With `keep`, the discarded ones then
      fill the result nearest first up to `m`. */
  method SelectNeighborsHeuristic(q: Element, c: seq<Element>, m: nat, adjacent: map<Element, seq<Element>>,
                                  extend: bool, keep: bool) returns (r: seq<Element>)
    ensures |r| <= m && ByKey(r, q, true)
    ensures multiset(r) <= multiset(Pool(c, adjacent, extend))
    ensures r != [] ==> forall y :: y in Pool(c, adjacent, extend) ==> SqDistance(r[0], q) <= SqDistance(y, q)
    ensures !keep ==> |r| <= 1
    ensures keep ==> |r| == Min(m, |Pool(c, adjacent, extend)|) && NearestOf(r, Pool(c, adjacent, extend), q)
    ensures m >= 1 && Pool(c, adjacent, extend) != [] ==> r != []
  {
    var candidates := new Elements(q, true, c);
    if extend {
      Extend(candidates, c, adjacent);
    }
    r := SelectFrom(candidates, m, keep, Pool(c, adjacent, extend));
  }

  /** The two loops of `select_neighbors_heuristic` on the heap `candidates` of the
      elements of `pool`, nearest first. */
  method SelectFrom(candidates: Elements, m: nat, keep: bool, ghost pool: seq<Element>) returns (r: seq<Element>)
    requires candidates.Valid() && candidates.nearest && multiset(candidates.items) == multiset(pool)
    modifies candidates
    ensures |r| <= m && ByKey(r, candidates.base, true)
    ensures multiset(r) <= multiset(pool)
    ensures r != [] ==> forall y :: y in pool ==> SqDistance(r[0], candidates.base) <= SqDistance(y, candidates.base)
    ensures !keep ==> |r| <= 1
    ensures keep ==> |r| == Min(m, |pool|) && NearestOf(r, pool, candidates.base)
    ensures m >= 1 && pool != [] ==> r != []
  {
    var q := candidates.base;
    var result := new Elements(q, true, []);
    var discarded := new Elements(q, true, []);
    Admit(result, candidates, discarded, m, pool);
    AdmittedSome(pool, result.items, candidates.items, discarded.items, q, m);
    if keep {
      Backfill(result, candidates, discarded, m, pool);
    }
    r := result.items;
    Conclude(pool, r, candidates.items, discarded.items, q);
  }

  /** The first loop: examine candidates nearest first while any remain and fewer than
      `m` are admitted. Since they come out in ascending order, none after the first can be
      strictly nearer than it: at most one is ever admitted. */
  method Admit(result: Elements, candidates: Elements, discarded: Elements, m: nat, ghost pool: seq<Element>)
    requires result != candidates && result != discarded && candidates != discarded
    requires result.Valid() && candidates.Valid() && discarded.Valid()
    requires result.base == candidates.base == discarded.base
    requires result.nearest && candidates.nearest && discarded.nearest
    requires result.items == [] && discarded.items == []
    requires multiset(pool) == multiset(candidates.items)
    modifies result, candidates, discarded
    ensures result.Valid() && candidates.Valid() && discarded.Valid()
    ensures Parts(pool, result.items, candidates.items, discarded.items, result.base)
    ensures |result.items| <= 1 && |result.items| <= m
    ensures discarded.items != [] ==> result.items != []
    ensures candidates.items == [] || |result.items| == m
  {
    var q := result.base;
    while |candidates.items| > 0 && |result.items| < m
      invariant result.Valid() && candidates.Valid() && discarded.Valid()
      invariant Parts(pool, result.items, candidates.items, discarded.items, q)
      invariant |result.items| <= 1 && |result.items| <= m
      invariant discarded.items != [] ==> result.items != []
      decreases |candidates.items|
    {
      ghost var waiting := candidates.items;
      var popped := candidates.PopNearest();
      var curr := popped.value;
      ghost var rest := candidates.items;
      MemberOfSum(rest, curr, waiting);
      if |result.items| > 0 {
        assert result.Nearest().value in result.items;
      }
      if |result.items| == 0 || SqDistance(curr, q) < SqDistance(result.Nearest().value, q) {
        result.Push(curr);
        AdmitFirst(pool, curr, waiting, rest, discarded.items, result.items, q);
      } else {
        ghost var d0 := discarded.items;
        discarded.Push(curr);
        DiscardStep(pool, result.items, curr, waiting, rest, d0, discarded.items, q);
      }
    }
  }

  /** After the first loop a non-empty pool and a positive `m` leave an admitted element:
      the loop stops with no candidates or `m` admitted, and a discarded one implies an
      admitted one. */
  lemma AdmittedSome(pool: seq<Element>, result: seq<Element>, waiting: seq<Element>,
                     discarded: seq<Element>, q: Element, m: nat)
    requires Parts(pool, result, waiting, discarded, q)
    requires waiting == [] || |result| == m
    requires discarded != [] ==> result != []
    ensures m >= 1 && pool != [] ==> result != []
  {
    assert |multiset(pool)| == |multiset(result)| + |multiset(waiting)| + |multiset(discarded)|;
  }

  /** Admitting the nearest waiting element into an empty result. */
  lemma AdmitFirst(pool: seq<Element>, curr: Element, waiting: seq<Element>, rest: seq<Element>,
                   discarded: seq<Element>, s: seq<Element>, q: Element)
    requires Parts(pool, [], waiting, discarded, q) && discarded == []
    requires multiset(rest) + multiset{curr} == multiset(waiting)
    requires forall i :: 0 <= i < |rest| ==> SqDistance(curr, q) <= SqDistance(rest[i], q)
    requires multiset(s) == multiset{curr}
    ensures Parts(pool, s, rest, [], q)
  {
    forall x, y | x in s && y in rest ensures SqDistance(x, q) <= SqDistance(y, q) {
      assert x in multiset(s);
      var i :| 0 <= i < |rest| && rest[i] == y;
    }
  }

  /** Discarding a waiting element that is no nearer than the admitted one. */
  lemma DiscardStep(pool: seq<Element>, result: seq<Element>, curr: Element, waiting: seq<Element>,
                    rest: seq<Element>, discarded: seq<Element>, d: seq<Element>, q: Element)
    requires Parts(pool, result, waiting, discarded, q)
    requires multiset(rest) + multiset{curr} == multiset(waiting)
    requires forall i :: 0 <= i < |rest| ==> SqDistance(curr, q) <= SqDistance(rest[i], q)
    requires multiset(d) == multiset(discarded) + multiset{curr}
    ensures Parts(pool, result, rest, d, q)
  {
    MemberOfSum(rest, curr, waiting);
    MemberOfSum(discarded, curr, d);
    forall x, y | x in d && y in rest ensures SqDistance(x, q) <= SqDistance(y, q) {
      assert x in multiset(d);
      if x != curr {
        assert x in multiset(discarded);
      } else {
        var i :| 0 <= i < |rest| && rest[i] == y;
      }
    }
    forall x, y | x in result && y in d ensures SqDistance(x, q) <= SqDistance(y, q) {
      assert y in multiset(d);
      if y != curr {
        assert y in multiset(discarded);
      }
    }
  }

  /** The `keep` loop: move discarded elements, nearest first, into the result while any
      remain and fewer than `m` are admitted. */
  method Backfill(result: Elements, candidates: Elements, discarded: Elements, m: nat, ghost pool: seq<Element>)
    requires result != candidates && result != discarded && candidates != discarded
    requires result.Valid() && candidates.Valid() && discarded.Valid()
    requires result.base == candidates.base == discarded.base
    requires result.nearest && candidates.nearest && discarded.nearest
    requires Parts(pool, result.items, candidates.items, discarded.items, result.base)
    requires |result.items| <= m
    requires candidates.items == [] || |result.items| == m
    modifies result, discarded
    ensures result.Valid() && discarded.Valid()
    ensures Parts(pool, result.items, candidates.items, discarded.items, result.base)
    ensures |result.items| <= m
    ensures |result.items| == m || (discarded.items == [] && candidates.items == [])
    ensures |result.items| >= old(|result.items|)
  {
    var q := result.base;
    while |discarded.items| > 0 && |result.items| < m
      invariant result.Valid() && discarded.Valid()
      invariant Parts(pool, result.items, candidates.items, discarded.items, q)
      invariant |result.items| <= m
      invariant candidates.items == [] || |result.items| == m
      invariant |result.items| >= old(|result.items|)
      decreases |discarded.items|
    {
      ghost var before := discarded.items;
      var popped := discarded.PopNearest();
      ghost var rest := discarded.items;
      ghost var r0 := result.items;
      result.Push(popped.value);
      BackfillStep(pool, r0, candidates.items, popped.value, before, rest, result.items, q);
    }
  }

  /** Moving the nearest discarded element into the result. */
  lemma BackfillStep(pool: seq<Element>, result: seq<Element>, waiting: seq<Element>, curr: Element,
                     discarded: seq<Element>, rest: seq<Element>, s: seq<Element>, q: Element)
    requires Parts(pool, result, waiting, discarded, q)
    requires multiset(rest) + multiset{curr} == multiset(discarded)
    requires forall i :: 0 <= i < |rest| ==> SqDistance(curr, q) <= SqDistance(rest[i], q)
    requires multiset(s) == multiset(result) + multiset{curr}
    ensures Parts(pool, s, waiting, rest, q)
  {
    MemberOfSum(rest, curr, discarded);
    MemberOfSum(result, curr, s);
    forall x, y | x in s && y in rest ensures SqDistance(x, q) <= SqDistance(y, q) {
      assert x in multiset(s);
      if x != curr {
        assert x in multiset(result);
      } else {
        var i :| 0 <= i < |rest| && rest[i] == y;
      }
    }
    forall x, y | x in s && y in waiting ensures SqDistance(x, q) <= SqDistance(y, q) {
      assert x in multiset(s);
      if x != curr {
        assert x in multiset(result);
      }
    }
  }

  /** What the heap parts give at the end: the result's head is the nearest of the pool,
      and with the `keep` bounds the result is the nearest `Min(m, |pool|)` of it. */
  lemma Conclude(pool: seq<Element>, r: seq<Element>, waiting: seq<Element>, discarded: seq<Element>, q: Element)
    requires Parts(pool, r, waiting, discarded, q) && ByKey(r, q, true)
    ensures multiset(r) <= multiset(pool)
    ensures r != [] ==> forall y :: y in pool ==> SqDistance(r[0], q) <= SqDistance(y, q)
    ensures multiset(pool) - multiset(r) == multiset(waiting) + multiset(discarded)
    ensures NearestOf(r, pool, q)
  {
    assert multiset(pool) - multiset(r) == multiset(waiting) + multiset(discarded);
    forall x, y | x in r && y in multiset(pool) - multiset(r) ensures SqDistance(x, q) <= SqDistance(y, q) {
      assert y in waiting || y in discarded;
    }
    if r != [] {
      forall y | y in pool ensures SqDistance(r[0], q) <= SqDistance(y, q) {
        assert y in multiset(pool);
        if y in multiset(r) {
          var i :| 0 <= i < |r| && r[i] == y;
          if i > 0 {
            assert SqDistance(r[0], q) <= SqDistance(r[i], q);
          }
        } else {
          assert y in waiting || y in discarded;
        }
      }
    }
  }
}
