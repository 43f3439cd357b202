/** The node cache: a bounded map from id to graph node whose keys are kept in an order,
    front to back. `get` moves a key to the front, `put` evicts from the back when the cache
    is full. The reader/writer lock is left out: the model is single-threaded. */
module Cache {
  import opened Common
  import opened Graph

  /** The cache's content: its keys from front to back, and the node held for each. */
  datatype Slots = Slots(order: seq<nat>, values: map<nat, Node>)

  predicate Distinct(s: seq<nat>)
  {
    forall i, j :: 0 <= i < j < |s| ==> s[i] != s[j]
  }

  /** The most entries a cache of this capacity can hold; none below capacity 1. */
  function Room(capacity: int): nat
  {
    if capacity < 0 then 0 else capacity
  }

  /** Each key is listed once in the order, the order lists exactly the keys, and there are
      no more of them than the capacity allows. */
  ghost predicate Wf(s: Slots, capacity: int)
  {
    && Distinct(s.order)
    && (forall k :: k in s.values <==> k in s.order)
    && |s.order| <= Room(capacity)
  }

  function Empty(): (s: Slots)
    ensures forall capacity :: Wf(s, capacity)
  {
    Slots([], map[])
  }

  /** `popitem(last=True)`: the back entry dropped. */
  function DropBack(s: Slots): (r: Slots)
    requires s.order != []
    ensures r.order == s.order[..|s.order| - 1]
    ensures r.values == s.values - {s.order[|s.order| - 1]}
  {
    Slots(s.order[..|s.order| - 1], s.values - {s.order[|s.order| - 1]})
  }

  /** `cache[key] = value` on an ordered map: an existing key keeps its place, a new one
      goes to the back. */
  function Stored(s: Slots, key: nat, value: Node): Slots
  {
    if key in s.values then Slots(s.order, s.values[key := value])
    else Slots(s.order + [key], s.values[key := value])
  }

  /** `put` as written: when the cache holds `capacity` entries or more it first drops its
      back entry, whether or not `key` is already held, then stores `key`. Dropping from an
      empty cache (capacity 0 or less) raises. */
  function AfterPut(s: Slots, capacity: int, key: nat, value: Node): Result<Slots>
  {
    if |s.order| >= capacity && s.order == [] then Err(EmptyCache)
    else if |s.order| >= capacity then Ok(Stored(DropBack(s), key, value))
    else Ok(Stored(s, key, value))
  }

  /** What `get` returns: the held node, or nothing for an absent key. */
  function Lookup(s: Slots, key: nat): Option<Node>
  {
    if key in s.values then Some(s.values[key]) else None
  }

  /** What `get` leaves: a held key moved to the front, the others in their order. */
  function Touched(s: Slots, key: nat): Slots
  {
    if key in s.values then Slots([key] + Without(s.order, key), s.values) else s
  }

  /** Dropping the back entry of a well-formed cache leaves one fewer, all distinct. */
  lemma DropBackWf(s: Slots, capacity: int)
    requires Wf(s, capacity) && s.order != []
    ensures Wf(DropBack(s), capacity) && |DropBack(s).order| < Room(capacity)
  {
    var r := DropBack(s);
    var back := s.order[|s.order| - 1];
    forall k ensures k in r.values <==> k in r.order {
      if k in r.order {
        var i :| 0 <= i < |r.order| && r.order[i] == k;
        assert s.order[i] == k && i < |s.order| - 1;
      }
      if k in s.order && k != back {
        var i :| 0 <= i < |s.order| && s.order[i] == k;
        assert i != |s.order| - 1;
        assert r.order[i] == k;
      }
    }
  }

  lemma StoredWf(s: Slots, capacity: int, key: nat, value: Node)
    requires Wf(s, capacity) && (key in s.values || |s.order| < Room(capacity))
    ensures Wf(Stored(s, key, value), capacity)
  {
  }

  /** A `put` that succeeds keeps every key once in the order and never holds more than
      `capacity` entries; it fails exactly when the capacity is 0 or less. */
  lemma PutKeepsBound(s: Slots, capacity: int, key: nat, value: Node)
    requires Wf(s, capacity)
    ensures AfterPut(s, capacity, key, value).Err? <==> capacity <= 0
    ensures AfterPut(s, capacity, key, value).Ok? ==> Wf(AfterPut(s, capacity, key, value).value, capacity)
  {
    if |s.order| >= capacity && s.order != [] {
      DropBackWf(s, capacity);
      StoredWf(DropBack(s), capacity, key, value);
    } else if s.order != [] || capacity > 0 {
      StoredWf(s, capacity, key, value);
    }
  }

  /** After a `put`, a `get` of the same key returns the new value; any other key keeps
      its node unless it was the back entry of a full cache, which is gone. */
  lemma PutThenGet(s: Slots, capacity: int, key: nat, value: Node, other: nat)
    requires Wf(s, capacity) && capacity > 0 && other != key
    ensures AfterPut(s, capacity, key, value).Ok?
    ensures Lookup(AfterPut(s, capacity, key, value).value, key) == Some(value)
    ensures var evicted := |s.order| >= capacity && other == s.order[|s.order| - 1];
      Lookup(AfterPut(s, capacity, key, value).value, other) == if evicted then None else Lookup(s, other)
  {
    PutKeepsBound(s, capacity, key, value);
  }

  /** Where `put` places the key: when the cache is full its back entry goes first, even
      when `key` is already held; then a key no longer held goes to the back and a held
      key keeps its place. */
  lemma PutPlacement(s: Slots, capacity: int, key: nat, value: Node)
    requires Wf(s, capacity) && capacity > 0
    ensures var full := |s.order| >= capacity;
      var kept := if full then s.order[..|s.order| - 1] else s.order;
      var t := AfterPut(s, capacity, key, value).value;
      && (full ==> s.order[|s.order| - 1] !in t.values || s.order[|s.order| - 1] == key)
      && (key in kept ==> t.order == kept)
      && (key !in kept ==> t.order == kept + [key])
  {
    PutKeepsBound(s, capacity, key, value);
    if |s.order| >= capacity {
      var kept := s.order[..|s.order| - 1];
      assert key in kept <==> key in DropBack(s).values by {
        DropBackWf(s, capacity);
      }
    }
  }

  /** A `put` of a held key into a full cache still evicts: the cache shrinks by one
      unless the key was the back entry itself. */
  lemma PutOfHeldKeyEvicts(s: Slots, capacity: int, key: nat, value: Node)
    requires Wf(s, capacity) && capacity > 0 && |s.order| == capacity
    requires key in s.values && key != s.order[|s.order| - 1]
    ensures |AfterPut(s, capacity, key, value).value.order| == capacity - 1
  {
    var i :| 0 <= i < |s.order| && s.order[i] == key;
    assert i < |s.order| - 1;
    assert DropBack(s).order[i] == key;
  }

  /** `get` of a held key returns its node and moves it to the front, keeping the others in
      their order and the cache well formed; `get` of an absent key returns nothing and
      changes nothing. */
  lemma GetMovesToFront(s: Slots, capacity: int, key: nat)
    requires Wf(s, capacity)
    ensures Wf(Touched(s, key), capacity)
    ensures Touched(s, key).values == s.values
    ensures key in s.values ==>
      Lookup(s, key) == Some(s.values[key]) && Touched(s, key).order[0] == key &&
      Touched(s, key).order[1..] == Without(s.order, key)
    ensures key !in s.values ==> Lookup(s, key).None? && Touched(s, key) == s
  {
    if key in s.values {
      var t := Touched(s, key);
      WithoutDistinct(s.order, key);
      assert t.order[1..] == Without(s.order, key);
      forall i, j | 0 <= i < j < |t.order| ensures t.order[i] != t.order[j] {
        if i > 0 {
          assert t.order[i] == Without(s.order, key)[i - 1];
          assert t.order[j] == Without(s.order, key)[j - 1];
        } else {
          assert t.order[j] in Without(s.order, key);
        }
      }
    }
  }

  /** Dropping a held key from a list of distinct keys leaves one fewer, still distinct,
      with the same other members. */
  lemma {:induction false} WithoutDistinct(s: seq<nat>, x: nat)
    requires Distinct(s) && x in s
    ensures |Without(s, x)| == |s| - 1
    ensures Distinct(Without(s, x))
    ensures forall y :: y in Without(s, x) <==> y in s && y != x
  {
    if s[0] == x {
      assert x !in s[1..];
      WithoutAbsent(s[1..], x);
    } else {
      assert x in s[1..];
      WithoutDistinct(s[1..], x);
      assert s[0] !in s[1..];
    }
  }

  lemma {:induction false} WithoutAbsent(s: seq<nat>, x: nat)
    requires x !in s
    ensures Without(s, x) == s
  {
    if s != [] {
      WithoutAbsent(s[1..], x);
      assert s == [s[0]] + s[1..];
    }
  }

  /** A key that was put and not read since sits at the back: once the cache is full, the
      next `put` of any other key evicts it. */
  lemma NewestEvictedNext(s: Slots, capacity: int, key: nat, value: Node, next: nat, nextValue: Node)
    requires Wf(s, capacity) && capacity > 0 && key !in s.values && next != key
    requires |AfterPut(s, capacity, key, value).value.order| == capacity
    ensures key in AfterPut(s, capacity, key, value).value.values
    ensures key !in AfterPut(AfterPut(s, capacity, key, value).value, capacity, next, nextValue).value.values
  {
    var x := if |s.order| >= capacity then DropBack(s) else s;
    assert key !in x.values;
    var t := AfterPut(s, capacity, key, value).value;
    assert t == Stored(x, key, value) && t.order[|t.order| - 1] == key;
    assert AfterPut(t, capacity, next, nextValue).value == Stored(DropBack(t), next, nextValue);
  }

  /** Concretely, with room for two: put 1, put 2, put 3 evicts 2, the key put last before
      3, and keeps 1, the key used longest ago. */
  lemma PutEvictsRecentKey(v: Node)
    ensures var s1 := AfterPut(Empty(), 2, 1, v).value;
      var s2 := AfterPut(s1, 2, 2, v).value;
      var s3 := AfterPut(s2, 2, 3, v).value;
      && s2.order == [1, 2]
      && s3.order == [1, 3]
      && 1 in s3.values && 2 !in s3.values
  {
    var s1 := AfterPut(Empty(), 2, 1, v).value;
    assert s1.order == [1];
    var s2 := AfterPut(s1, 2, 2, v).value;
    assert s2.order == [1, 2];
    assert DropBack(s2).order == [1];
  }

  /** `put` as an LRU cache intends it: a held key is updated and moved to the front; a
      new key goes to the front, after the back entry (the least recently used) is dropped
      from a full cache. A cache of capacity 0 or less can hold nothing. */
  function AfterLruPut(s: Slots, capacity: int, key: nat, value: Node): Result<Slots>
  {
    if key in s.values then Ok(Slots([key] + Without(s.order, key), s.values[key := value]))
    else if |s.order| >= capacity && s.order == [] then Err(EmptyCache)
    else if |s.order| >= capacity then
      var t := DropBack(s);
      Ok(Slots([key] + t.order, t.values[key := value]))
    else Ok(Slots([key] + s.order, s.values[key := value]))
  }

  /** Each key's last use is stamped with a clock reading: the order runs from the most
      recently used key to the least recently used one, and every stamp is before `now`. */
  ghost predicate ByRecency(s: Slots, stamps: map<nat, nat>, now: nat)
  {
    && (forall k :: k in stamps ==> stamps[k] < now)
    && (forall i :: 0 <= i < |s.order| ==> s.order[i] in stamps)
    && (forall i, j :: 0 <= i < j < |s.order| ==> stamps[s.order[i]] > stamps[s.order[j]])
  }

  /** Moving `key` to the front of a recency order with a fresh stamp keeps it a recency
      order. */
  lemma ToFrontByRecency(rest: seq<nat>, stamps: map<nat, nat>, now: nat, key: nat, values: map<nat, Node>)
    requires ByRecency(Slots(rest, values), stamps, now) && key !in rest
    ensures ByRecency(Slots([key] + rest, values), stamps[key := now], now + 1)
  {
    var st := stamps[key := now];
    var o := [key] + rest;
    forall i, j | 0 <= i < j < |o| ensures st[o[i]] > st[o[j]] {
      assert o[j] == rest[j - 1];
      if i > 0 {
        assert o[i] == rest[i - 1];
      }
    }
  }

  /** The intended `put` keeps the cache well formed and the keys in recency order, and the
      key it evicts, if any, is the one used least recently of all it held. */
  lemma LruPutEvictsLeastRecent(s: Slots, capacity: int, key: nat, value: Node, stamps: map<nat, nat>, now: nat)
    requires Wf(s, capacity) && ByRecency(s, stamps, now)
    ensures AfterLruPut(s, capacity, key, value).Err? <==> key !in s.values && capacity <= 0
    ensures AfterLruPut(s, capacity, key, value).Ok? ==>
      var t := AfterLruPut(s, capacity, key, value).value;
      && Wf(t, capacity) && ByRecency(t, stamps[key := now], now + 1)
      && Lookup(t, key) == Some(value) && t.order[0] == key
      && forall x :: x in s.values && x !in t.values ==>
           forall y :: y in s.values && y != x ==> stamps[x] < stamps[y]
  {
    if key in s.values {
      LruPutHeld(s, capacity, key, value, stamps, now);
    } else if |s.order| >= capacity && s.order != [] {
      LruPutEvicting(s, capacity, key, value, stamps, now);
    } else if !(|s.order| >= capacity && s.order == []) {
      ToFrontByRecency(s.order, stamps, now, key, s.values[key := value]);
    }
  }

  /** The intended `put` of a held key: updated and moved to the front, nothing evicted. */
  lemma LruPutHeld(s: Slots, capacity: int, key: nat, value: Node, stamps: map<nat, nat>, now: nat)
    requires Wf(s, capacity) && ByRecency(s, stamps, now) && key in s.values
    ensures var t := AfterLruPut(s, capacity, key, value).value;
      Wf(t, capacity) && ByRecency(t, stamps[key := now], now + 1) && t.values.Keys == s.values.Keys
  {
    WithoutDistinct(s.order, key);
    var rest := Without(s.order, key);
    WithoutKeepsOrder(s.order, key, stamps);
    assert ByRecency(Slots(rest, s.values), stamps, now);
    ToFrontByRecency(rest, stamps, now, key, s.values[key := value]);
    GetMovesToFront(s, capacity, key);
  }

  /** The intended `put` of a new key into a full cache: the back entry, the least recently
      used, makes room for the key at the front. */
  lemma LruPutEvicting(s: Slots, capacity: int, key: nat, value: Node, stamps: map<nat, nat>, now: nat)
    requires Wf(s, capacity) && ByRecency(s, stamps, now) && key !in s.values
    requires |s.order| >= capacity && s.order != []
    ensures var t := AfterLruPut(s, capacity, key, value).value;
      && Wf(t, capacity) && ByRecency(t, stamps[key := now], now + 1)
      && t.values.Keys == s.values.Keys - {s.order[|s.order| - 1]} + {key}
      && forall y :: y in s.values && y != s.order[|s.order| - 1] ==> stamps[s.order[|s.order| - 1]] < stamps[y]
  {
    var t := DropBack(s);
    DropBackWf(s, capacity);
    assert ByRecency(t, stamps, now);
    ToFrontByRecency(t.order, stamps, now, key, t.values[key := value]);
    var back := s.order[|s.order| - 1];
    forall y | y in s.values && y != back ensures stamps[back] < stamps[y] {
      var j :| 0 <= j < |s.order| && s.order[j] == y;
      assert j < |s.order| - 1;
    }
  }

  /** Dropping one key from a recency order keeps the rest in recency order. */
  lemma {:induction false} WithoutKeepsOrder(s: seq<nat>, x: nat, stamps: map<nat, nat>)
    requires forall i :: 0 <= i < |s| ==> s[i] in stamps
    requires forall i, j :: 0 <= i < j < |s| ==> stamps[s[i]] > stamps[s[j]]
    ensures forall i :: 0 <= i < |Without(s, x)| ==> Without(s, x)[i] in stamps
    ensures forall i, j :: 0 <= i < j < |Without(s, x)| ==> stamps[Without(s, x)[i]] > stamps[Without(s, x)[j]]
  {
    if s != [] {
      WithoutKeepsOrder(s[1..], x, stamps);
      var w := Without(s[1..], x);
      forall i | 0 <= i < |w| ensures w[i] in s[1..] && stamps[s[0]] > stamps[w[i]] {
        WithoutMember(s[1..], x, w[i]);
        var j :| 0 <= j < |s[1..]| && s[1..][j] == w[i];
        assert s[j + 1] == w[i];
      }
    }
  }

  lemma {:induction false} WithoutMember(s: seq<nat>, x: nat, y: nat)
    requires y in Without(s, x)
    ensures y in s
  {
    if s != [] && s[0] != y {
      WithoutMember(s[1..], x, y);
    }
  }

  /** A `get` of a held key under the intended policy is a use: the key gets a fresh stamp
      and the order stays a recency order. */
  lemma GetRefreshesRecency(s: Slots, capacity: int, key: nat, stamps: map<nat, nat>, now: nat)
    requires Wf(s, capacity) && ByRecency(s, stamps, now) && key in s.values
    ensures ByRecency(Touched(s, key), stamps[key := now], now + 1)
  {
    WithoutKeepsOrder(s.order, key, stamps);
    ToFrontByRecency(Without(s.order, key), stamps, now, key, s.values);
  }

  /** The cache as written. */
  class NodeCache {
    const capacity: int
    var order: seq<nat>
    var values: map<nat, Node>

    function State(): Slots
      reads this
    {
      Slots(order, values)
    }

    ghost predicate Valid()
      reads this
    {
      Wf(State(), capacity)
    }

    /** An empty cache; the source's default capacity is 2048. */
    constructor (capacity: int)
      ensures Valid() && this.capacity == capacity && State() == Empty()
    {
      this.capacity := capacity;
      order := [];
      values := map[];
    }

    method Put(key: nat, value: Node) returns (r: Outcome)
      requires Valid()
      modifies this
      ensures Valid()
      ensures r.Pass? <==> AfterPut(old(State()), capacity, key, value).Ok?
      ensures r.Pass? ==> State() == AfterPut(old(State()), capacity, key, value).value
      ensures r.Fail? ==> r.error == EmptyCache && State() == old(State())
    {
      PutKeepsBound(State(), capacity, key, value);
      if |order| >= capacity {
        if order == [] {
          return Fail(EmptyCache);
        }
        values := values - {order[|order| - 1]};
        order := order[..|order| - 1];
      }
      if key !in values {
        order := order + [key];
      }
      values := values[key := value];
      r := Pass;
    }

    method Get(key: nat) returns (r: Option<Node>)
      requires Valid()
      modifies this`order
      ensures Valid()
      ensures r == Lookup(old(State()), key)
      ensures State() == Touched(old(State()), key)
    {
      GetMovesToFront(State(), capacity, key);
      if key in values {
        order := [key] + Without(order, key);
        return Some(values[key]);
      }
      r := None;
    }
  }

  /** The cache with the intended least-recently-used policy. The ghost clock stamps every
      use, so that `Valid` can say the order is by recency. */
  class LruCache {
    const capacity: int
    var order: seq<nat>
    var values: map<nat, Node>
    ghost var stamps: map<nat, nat>
    ghost var now: nat

    function State(): Slots
      reads this
    {
      Slots(order, values)
    }

    ghost predicate Valid()
      reads this
    {
      Wf(State(), capacity) && ByRecency(State(), stamps, now)
    }

    constructor (capacity: int)
      ensures Valid() && this.capacity == capacity && State() == Empty()
    {
      this.capacity := capacity;
      order := [];
      values := map[];
      stamps := map[];
      now := 0;
    }

    method Put(key: nat, value: Node) returns (r: Outcome)
      requires Valid()
      modifies this
      ensures Valid()
      ensures r.Pass? <==> AfterLruPut(old(State()), capacity, key, value).Ok?
      ensures r.Pass? ==> State() == AfterLruPut(old(State()), capacity, key, value).value
      ensures r.Pass? ==> forall x :: x in old(values) && x !in values ==>
                forall y :: y in old(values) && y != x ==> old(stamps)[x] < old(stamps)[y]
      ensures r.Fail? ==> r.error == EmptyCache && State() == old(State())
    {
      ghost var t := AfterLruPut(State(), capacity, key, value);
      LruPutEvictsLeastRecent(State(), capacity, key, value, stamps, now);
      if key in values {
        order := [key] + Without(order, key);
      } else if |order| >= capacity {
        if order == [] {
          return Fail(EmptyCache);
        }
        values := values - {order[|order| - 1]};
        order := [key] + order[..|order| - 1];
      } else {
        order := [key] + order;
      }
      values := values[key := value];
      assert State() == t.value;
      stamps := stamps[key := now];
      now := now + 1;
      r := Pass;
    }

    method Get(key: nat) returns (r: Option<Node>)
      requires Valid()
      modifies this`order, this`stamps, this`now
      ensures Valid()
      ensures r == Lookup(old(State()), key)
      ensures State() == Touched(old(State()), key)
    {
      GetMovesToFront(State(), capacity, key);
      if key in values {
        GetRefreshesRecency(State(), capacity, key, stamps, now);
        order := [key] + Without(order, key);
        stamps := stamps[key := now];
        now := now + 1;
        return Some(values[key]);
      }
      r := None;
    }
  }
}
