/** Failure-carrying results and the sequence helpers shared by the index's modules. */
module Common {

  datatype Option<T> = None | Some(value: T)

  /** The ways an operation of the index can fail, named after what the source raises. */
  datatype Error =
    | NotFound(id: nat)          // KeyError on a point id the store does not hold
    | EmptyCandidates            // IndexError on `points[-1]` of an empty candidate list
    | AssertionFailed            // a failed `assert` in the source
    | MissingMethod              // AttributeError: a method that exists only as commented-out code
    | EmptyCache                 // KeyError from popitem on an empty ordered dict
    | NotInList(id: nat)         // ValueError from list.remove
    | NoLayer(layer: nat)        // IndexError or TypeError on a layer slot that is missing or unset
    | EmptyHeap                  // IndexError from heappop, or ValueError from max, on an empty heap
    | EmptyRange                 // ValueError from random.randint when its upper bound is below 0

  datatype Result<T> = Ok(value: T) | Err(error: Error)

  datatype Outcome = Pass | Fail(error: Error)

  /** Number of occurrences of `x` in `s`. */
  function Count<T(==)>(s: seq<T>, x: T): (n: nat)
    ensures n <= |s|
    ensures n == multiset(s)[x]
  {
    if s == [] then 0
    else
      assert s == [s[0]] + s[1..];
      (if s[0] == x then 1 else 0) + Count(s[1..], x)
  }

  /** `n` copies of `x`. */
  function Repeat<T>(x: T, n: nat): (r: seq<T>)
    ensures |r| == n
    ensures forall i :: 0 <= i < n ==> r[i] == x
  {
    if n == 0 then [] else [x] + Repeat(x, n - 1)
  }

  lemma RepeatSnoc<T>(x: T, n: nat)
    ensures Repeat(x, n) + [x] == Repeat(x, n + 1)
  {
    if n > 0 {
      RepeatSnoc(x, n - 1);
    }
  }

  lemma RepeatConcat<T>(x: T, m: nat, n: nat)
    ensures Repeat(x, m) + Repeat(x, n) == Repeat(x, m + n)
  {
    if m > 0 {
      RepeatConcat(x, m - 1, n);
    }
  }

  /** `s` without its first occurrence of `x` (Python's `list.remove` on success). */
  function RemoveFirst<T(==)>(s: seq<T>, x: T): (r: seq<T>)
    ensures x in s ==> |r| == |s| - 1 && multiset(r) == multiset(s) - multiset{x}
    ensures x !in s ==> r == s
  {
    if s == [] then []
    else
      assert s == [s[0]] + s[1..];
      if s[0] == x then s[1..]
      else [s[0]] + RemoveFirst(s[1..], x)
  }

  /** `s` with every occurrence of `x` dropped, order kept. */
  function Without<T(==,!new)>(s: seq<T>, x: T): (r: seq<T>)
    ensures x !in r
    ensures forall y :: y != x ==> Count(r, y) == Count(s, y)
  {
    if s == [] then []
    else if s[0] == x then Without(s[1..], x)
    else [s[0]] + Without(s[1..], x)
  }

  lemma CountAppend<T>(a: seq<T>, b: seq<T>, x: T)
    ensures Count(a + b, x) == Count(a, x) + Count(b, x)
  {
    assert multiset(a + b) == multiset(a) + multiset(b);
  }

  lemma CountSnoc<T>(s: seq<T>, x: T, y: T)
    ensures Count(s + [x], y) == Count(s, y) + if x == y then 1 else 0
  {
    CountAppend(s, [x], y);
    assert Count([x], y) == if x == y then 1 else 0;
  }

  lemma RepeatAppend<T>(w: seq<T>, x: T, n: nat)
    ensures (w + Repeat(x, n)) + [x] == w + Repeat(x, n + 1)
  {
    RepeatSnoc(x, n);
    assert (w + Repeat(x, n)) + [x] == w + (Repeat(x, n) + [x]);
  }

  lemma CountPositive<T>(s: seq<T>, x: T)
    requires Count(s, x) > 0
    ensures x in s
  {
    assert multiset(s)[x] > 0;
  }

  /** One removal of `x` lowers its count by one and keeps every other count. */
  lemma CountRemoveFirst<T>(s: seq<T>, x: T, y: T)
    requires x in s
    ensures Count(RemoveFirst(s, x), y) == Count(s, y) - if x == y then 1 else 0
  {
    var r := RemoveFirst(s, x);
    assert multiset(r) == multiset(s) - multiset{x};
  }

  /** What remains after a removal was there before. */
  lemma RemoveFirstMember<T>(s: seq<T>, x: T, y: T)
    requires y in RemoveFirst(s, x)
    ensures y in s
  {
    if x in s {
      assert y in multiset(RemoveFirst(s, x));
    }
  }

  lemma CountRepeat<T>(x: T, n: nat, y: T)
    ensures Count(Repeat(x, n), y) == if x == y then n else 0
  {
    var r := Repeat(x, n);
    if x == y {
      assert forall i :: 0 <= i < n ==> r[i] == x;
      assert multiset(r)[x] == n by { RepeatMultiset(x, n); }
    } else {
      assert y !in r;
      assert multiset(r)[y] == 0;
    }
  }

  lemma RepeatMultiset<T>(x: T, n: nat)
    ensures multiset(Repeat(x, n))[x] == n
  {
    if n > 0 {
      RepeatMultiset(x, n - 1);
      assert Repeat(x, n) == [x] + Repeat(x, n - 1);
    }
  }

  /** Removing the first occurrence of `x` as often as it occurs drops all of them. */
  lemma {:induction false} RemoveFirstRepeatedly<T(!new)>(s: seq<T>, x: T)
    ensures RemoveFirstN(s, x, Count(s, x)) == Without(s, x)
  {
    if s == [] {
    } else if s[0] == x {
      assert Count(s, x) == 1 + Count(s[1..], x);
      assert RemoveFirst(s, x) == s[1..];
      RemoveFirstRepeatedly(s[1..], x);
    } else {
      RemoveFirstNCons(s[0], s[1..], x, Count(s[1..], x));
      RemoveFirstRepeatedly(s[1..], x);
      assert s == [s[0]] + s[1..];
    }
  }

  /** `RemoveFirst` applied `k` times. */
  function RemoveFirstN<T(==,!new)>(s: seq<T>, x: T, k: nat): (r: seq<T>)
    ensures forall y :: y != x ==> Count(r, y) == Count(s, y)
    decreases k
  {
    if k == 0 then s
    else
      var once := RemoveFirst(s, x);
      assert forall y :: y != x ==> multiset(once)[y] == multiset(s)[y];
      RemoveFirstN(once, x, k - 1)
  }

  lemma RemoveFirstCons<T>(h: T, t: seq<T>, x: T)
    requires h != x && Count(t, x) > 0
    ensures RemoveFirst([h] + t, x) == [h] + RemoveFirst(t, x)
    ensures Count(RemoveFirst(t, x), x) == Count(t, x) - 1
  {
    assert x in t by { assert multiset(t)[x] > 0; }
    assert ([h] + t)[1..] == t;
  }

  lemma {:induction false} RemoveFirstNCons<T(!new)>(h: T, t: seq<T>, x: T, k: nat)
    requires h != x
    requires k <= Count(t, x)
    ensures RemoveFirstN([h] + t, x, k) == [h] + RemoveFirstN(t, x, k)
    decreases k
  {
    if k > 0 {
      var t' := RemoveFirst(t, x);
      RemoveFirstCons(h, t, x);
      RemoveFirstNCons(h, t', x, k - 1);
    }
  }
}
