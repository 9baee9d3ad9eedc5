/**
  Properties of whole sequences of Get and Set calls on one cache: the capacity
  bound holds after every call, the recency list is ordered by last use (so the
  back, which evict removes, is the least recently used key), and filling the
  cache with distinct keys evicts the first one inserted.
 */
module LruHistory {
  import opened LruSpec

  /** One call on the cache. */
  datatype Op = GetOp(key: string) | SetOp(key: string, content: Bytes)

  function Step(c: Cache, op: Op): Cache
  {
    match op
    case GetOp(k) => AfterGet(c, k)
    case SetOp(k, v) => AfterSet(c, k, v)
  }

  /** The cache after the calls `ops`, oldest first. */
  function Run(c: Cache, ops: seq<Op>): Cache
    decreases |ops|
  {
    if ops == [] then c else Step(Run(c, ops[..|ops| - 1]), ops[|ops| - 1])
  }

  /** Index of the last call in `ops` that names `key`, or -1. */
  function LastTouch(ops: seq<Op>, key: string): (t: int)
    ensures -1 <= t < |ops|
    ensures 0 <= t ==> ops[t].key == key
    ensures forall i :: t < i < |ops| ==> ops[i].key != key
    decreases |ops|
  {
    if ops == [] then -1
    else if ops[|ops| - 1].key == key then |ops| - 1
    else LastTouch(ops[..|ops| - 1], key)
  }

  /** The keys of `order` all have a rank of at least zero, and the rank
      strictly decreases from the front to the back. */
  ghost predicate Ranked(order: seq<string>, rank: string -> int)
  {
    && (forall i :: 0 <= i < |order| ==> 0 <= rank(order[i]))
    && (forall i, j :: 0 <= i < j < |order| ==> rank(order[j]) < rank(order[i]))
  }

  /** Every listed key has been named by some call, and a key nearer the front
      was named more recently than every key behind it. */
  ghost predicate ByRecency(order: seq<string>, ops: seq<Op>)
  {
    Ranked(order, x => LastTouch(ops, x))
  }

  /** Every call keeps the map and the list in agreement, and no call changes the capacity. */
  lemma {:induction false} RunConsistent(c: Cache, ops: seq<Op>)
    requires Consistent(c)
    ensures Consistent(Run(c, ops))
    ensures Run(c, ops).capacity == c.capacity
    decreases |ops|
  {
    if ops != [] {
      var prev := ops[..|ops| - 1];
      RunConsistent(c, prev);
      var op := ops[|ops| - 1];
      ConsistentPreserved(Run(c, prev), op.key, if op.SetOp? then op.content else []);
    }
  }

  /** Capacity invariant: from a valid cache of capacity at least one, every
      sequence of calls leaves the size within capacity and the map size equal
      to the list length. */
  lemma {:induction false} RunValid(c: Cache, ops: seq<Op>)
    requires Valid(c)
    requires 1 <= c.capacity
    ensures Valid(Run(c, ops))
    ensures |Run(c, ops).entries| == |Run(c, ops).order| <= c.capacity
    decreases |ops|
  {
    if ops != [] {
      var prev := ops[..|ops| - 1];
      RunValid(c, prev);
      RunConsistent(c, prev);
      var op := ops[|ops| - 1];
      ValidPreserved(Run(c, prev), op.key, if op.SetOp? then op.content else []);
    }
    SizeAgrees(Run(c, ops));
  }

  // ---------------------------------------------------------------------------
  // Recency

  /** A key not named by the last call keeps its last-touch index. */
  lemma TouchOfOthers(ops: seq<Op>, x: string)
    requires ops != []
    requires x != ops[|ops| - 1].key
    ensures LastTouch(ops, x) == LastTouch(ops[..|ops| - 1], x)
  {
  }

  lemma RankedTail(order: seq<string>, rank: string -> int)
    requires Ranked(order, rank) && order != []
    ensures Ranked(order[1..], rank)
    ensures forall x :: x in order[1..] ==> rank(x) < rank(order[0])
  {
    var t := order[1..];
    forall i, j | 0 <= i < j < |t| ensures rank(t[j]) < rank(t[i]) {
      assert t[i] == order[i + 1] && t[j] == order[j + 1];
    }
    forall i | 0 <= i < |t| ensures 0 <= rank(t[i]) && rank(t[i]) < rank(order[0]) {
      assert t[i] == order[i + 1];
    }
  }

  lemma RankedCons(x: string, t: seq<string>, rank: string -> int)
    requires Ranked(t, rank) && 0 <= rank(x)
    requires forall y :: y in t ==> rank(y) < rank(x)
    ensures Ranked([x] + t, rank)
  {
    var r := [x] + t;
    forall i, j | 0 <= i < j < |r| ensures rank(r[j]) < rank(r[i]) {
      assert r[j] == t[j - 1];
      if i > 0 {
        assert r[i] == t[i - 1];
      }
    }
    forall i | 0 <= i < |r| ensures 0 <= rank(r[i]) {
      if i > 0 {
        assert r[i] == t[i - 1];
      }
    }
  }

  /** Unlinking a key keeps the rest of the list ranked. */
  lemma {:induction false} RankedWithout(order: seq<string>, rank: string -> int, key: string)
    requires Ranked(order, rank)
    ensures Ranked(Without(order, key), rank)
  {
    if order != [] {
      var t := order[1..];
      RankedTail(order, rank);
      RankedWithout(t, rank, key);
      if order[0] != key {
        RankedCons(order[0], Without(t, key), rank);
      }
    }
  }

  /** A list ordered by recency before the last call, that does not hold the
      key the last call named, is still ordered afterwards, also with that key
      pushed at its front. */
  lemma PushFrontByRecency(order: seq<string>, ops: seq<Op>)
    requires ops != []
    requires ByRecency(order, ops[..|ops| - 1])
    requires ops[|ops| - 1].key !in order
    ensures ByRecency(order, ops)
    ensures ByRecency([ops[|ops| - 1].key] + order, ops)
  {
    var prev := ops[..|ops| - 1];
    var k := ops[|ops| - 1].key;
    forall i | 0 <= i < |order|
      ensures LastTouch(ops, order[i]) == LastTouch(prev, order[i]) < |ops| - 1
    {
      TouchOfOthers(ops, order[i]);
    }
    var r := [k] + order;
    forall i, j | 0 <= i < j < |r| ensures LastTouch(ops, r[j]) < LastTouch(ops, r[i]) {
      assert r[j] == order[j - 1];
      if i > 0 {
        assert r[i] == order[i - 1];
      }
    }
    forall i | 0 <= i < |r| ensures 0 <= LastTouch(ops, r[i]) {
      if i > 0 {
        assert r[i] == order[i - 1];
      }
    }
  }

  /** The recency list is always ordered by last use: after any sequence of
      calls on a new cache, of any capacity, each listed key was named by some
      call, and a key nearer the front was named more recently than every key
      behind it. */
  lemma {:induction false} RecencyOrdered(capacity: int, ops: seq<Op>)
    ensures ByRecency(Run(NewCache(capacity), ops).order, ops)
    decreases |ops|
  {
    if ops != [] {
      var prev := ops[..|ops| - 1];
      var op := ops[|ops| - 1];
      var k := op.key;
      var s := Run(NewCache(capacity), prev);
      RecencyOrdered(capacity, prev);
      RunConsistent(NewCache(capacity), prev);
      assert Run(NewCache(capacity), ops) == Step(s, op);
      if k in s.entries {
        RankedWithout(s.order, x => LastTouch(prev, x), k);
        PushFrontByRecency(Without(s.order, k), ops);
        assert Step(s, op).order == [k] + Without(s.order, k);
      } else if op.GetOp? {
        PushFrontByRecency(s.order, ops);
      } else {
        var d := if |s.order| == s.capacity then AfterEvict(s) else s;
        assert ByRecency(d.order, prev) by {
          if d != s {
            var p := s.order[..|s.order| - 1];
            assert d.order == p;
            forall i | 0 <= i < |p| ensures p[i] == s.order[i] {
            }
          }
        }
        assert k !in d.order;
        PushFrontByRecency(d.order, ops);
        assert Step(s, op).order == [k] + d.order;
      }
    }
  }

  /** The back of the list, the key evict removes, is the least recently used
      key in the cache. */
  lemma BackIsLeastRecent(capacity: int, ops: seq<Op>)
    requires Run(NewCache(capacity), ops).order != []
    ensures var c := Run(NewCache(capacity), ops);
      var back := c.order[|c.order| - 1];
      && back in c.entries
      && forall k :: k in c.entries ==> LastTouch(ops, back) <= LastTouch(ops, k)
  {
    var c := Run(NewCache(capacity), ops);
    var n := |c.order|;
    RecencyOrdered(capacity, ops);
    RunConsistent(NewCache(capacity), ops);
    forall k | k in c.entries ensures LastTouch(ops, c.order[n - 1]) <= LastTouch(ops, k) {
      var i :| 0 <= i < n && c.order[i] == k;
      if i < n - 1 {
        assert LastTouch(ops, c.order[n - 1]) < LastTouch(ops, c.order[i]);
      }
    }
  }

  // ---------------------------------------------------------------------------
  // Filling the cache with distinct keys

  /** Calls that are all Sets of pairwise different keys. */
  ghost predicate DistinctInserts(ops: seq<Op>)
  {
    && (forall i :: 0 <= i < |ops| ==> ops[i].SetOp?)
    && (forall i, j :: 0 <= i < j < |ops| ==> ops[i].key != ops[j].key)
  }

  /** `c` lists the keys of `ops` newest first and holds each key's content. */
  ghost predicate Filled(c: Cache, ops: seq<Op>)
  {
    && |c.order| == |ops|
    && (forall i :: 0 <= i < |ops| ==> c.order[i] == ops[|ops| - 1 - i].key)
    && (forall i :: 0 <= i < |ops| ==> ops[i].SetOp? && GetResult(c, ops[i].key) == (ops[i].content, true))
  }

  lemma FillStep(s: Cache, ops: seq<Op>)
    requires ops != [] && DistinctInserts(ops)
    requires Consistent(s) && Filled(s, ops[..|ops| - 1])
    requires s.capacity <= 0 || |ops| <= s.capacity
    ensures Filled(AfterSet(s, ops[|ops| - 1].key, ops[|ops| - 1].content), ops)
  {
    var n := |ops|;
    var op := ops[n - 1];
    forall i | 0 <= i < n - 1 ensures s.order[i] != op.key {
      assert s.order[i] == ops[n - 2 - i].key;
    }
    assert op.key !in s.entries;
    SetNewSpare(s, op.key, op.content);
    FilledCons(s, AfterSet(s, op.key, op.content), ops);
  }

  /** Pushing the last inserted key in front of a filled cache fills it for all of `ops`. */
  lemma FilledCons(s: Cache, c: Cache, ops: seq<Op>)
    requires ops != [] && ops[|ops| - 1].SetOp?
    requires Filled(s, ops[..|ops| - 1])
    requires c.order == [ops[|ops| - 1].key] + s.order
    requires ops[|ops| - 1].key in c.entries
    requires c.entries[ops[|ops| - 1].key] == CacheEntry(ops[|ops| - 1].key, ops[|ops| - 1].content)
    requires forall k :: k in s.entries ==> k in c.entries && c.entries[k] == s.entries[k]
    ensures Filled(c, ops)
  {
    var n := |ops|;
    var prev := ops[..n - 1];
    forall i | 0 <= i < n ensures c.order[i] == ops[n - 1 - i].key {
      if i > 0 {
        assert c.order[i] == s.order[i - 1];
      }
    }
    forall i | 0 <= i < n
      ensures ops[i].SetOp? && GetResult(c, ops[i].key) == (ops[i].content, true)
    {
      if i < n - 1 {
        assert prev[i] == ops[i];
        assert GetResult(s, prev[i].key) == (prev[i].content, true);
        assert ops[i].key in s.entries;
      } else {
        assert ops[i] == ops[n - 1];
      }
    }
  }

  /** Up to the capacity (or without limit when the capacity is zero or below),
      Sets of distinct keys on a new cache evict nothing, list the keys newest
      first and keep each key's content. */
  lemma {:induction false} FillInOrder(capacity: int, ops: seq<Op>)
    requires DistinctInserts(ops)
    requires capacity <= 0 || |ops| <= capacity
    ensures Filled(Run(NewCache(capacity), ops), ops)
    decreases |ops|
  {
    if ops != [] {
      var prev := ops[..|ops| - 1];
      assert DistinctInserts(prev);
      FillInOrder(capacity, prev);
      RunConsistent(NewCache(capacity), prev);
      FillStep(Run(NewCache(capacity), prev), ops);
    }
  }

  /** LRU correctness: with capacity C at least one, C + 1 Sets of distinct keys
      on a new cache evict the first key inserted and keep all the others. */
  lemma FirstInsertedEvicted(capacity: int, ops: seq<Op>)
    requires 1 <= capacity
    requires DistinctInserts(ops)
    requires |ops| == capacity + 1
    ensures var c := Run(NewCache(capacity), ops);
      && ops[0].key !in c.entries
      && forall i :: 1 <= i < |ops| ==> GetResult(c, ops[i].key) == (ops[i].content, true)
  {
    var prev := ops[..capacity];
    assert DistinctInserts(prev);
    FillInOrder(capacity, prev);
    RunConsistent(NewCache(capacity), prev);
    OverflowStep(Run(NewCache(capacity), prev), ops);
  }

  /** One more distinct Set on a full, filled cache evicts the oldest key. */
  lemma OverflowStep(s: Cache, ops: seq<Op>)
    requires 1 <= s.capacity && |ops| == s.capacity + 1 && DistinctInserts(ops)
    requires Consistent(s) && Filled(s, ops[..|ops| - 1])
    ensures var c := AfterSet(s, ops[|ops| - 1].key, ops[|ops| - 1].content);
      && ops[0].key !in c.entries
      && forall i :: 1 <= i < |ops| ==> GetResult(c, ops[i].key) == (ops[i].content, true)
  {
    var n := |ops|;
    var op := ops[n - 1];
    forall i | 0 <= i < n - 1 ensures s.order[i] != op.key {
      assert s.order[i] == ops[n - 2 - i].key;
    }
    assert op.key !in s.entries;
    assert s.order[n - 2] == ops[0].key;
    SetNewFull(s, op.key, op.content);
    OverflowKeeps(s, AfterSet(s, op.key, op.content), ops);
  }

  lemma OverflowKeeps(s: Cache, c: Cache, ops: seq<Op>)
    requires 2 <= |ops| && DistinctInserts(ops)
    requires Filled(s, ops[..|ops| - 1])
    requires ops[0].key !in c.entries
    requires ops[|ops| - 1].key in c.entries
    requires c.entries[ops[|ops| - 1].key] == CacheEntry(ops[|ops| - 1].key, ops[|ops| - 1].content)
    requires forall k :: k in s.entries && k != ops[0].key ==> k in c.entries && c.entries[k] == s.entries[k]
    ensures forall i :: 1 <= i < |ops| ==> GetResult(c, ops[i].key) == (ops[i].content, true)
  {
    var n := |ops|;
    var prev := ops[..n - 1];
    forall i | 1 <= i < n ensures GetResult(c, ops[i].key) == (ops[i].content, true) {
      if i < n - 1 {
        assert prev[i] == ops[i];
        assert GetResult(s, prev[i].key) == (prev[i].content, true);
        assert ops[i].key in s.entries && ops[i].key != ops[0].key;
      } else {
        assert ops[i] == ops[n - 1];
      }
    }
  }

  /** As written, a capacity of zero does not bound the cache: n Sets of
      distinct keys leave n entries. */
  lemma ZeroCapacityUnbounded(ops: seq<Op>)
    requires DistinctInserts(ops)
    ensures |Run(NewCache(0), ops).entries| == |ops|
  {
    FillInOrder(0, ops);
    RunConsistent(NewCache(0), ops);
    SizeAgrees(Run(NewCache(0), ops));
  }
}
