# LRU cache of mansrv, modelled in Dafny

mansrv serves man pages over HTTP and keeps rendered pages in a bounded
least-recently-used cache (`server.go`, lines 17-85). The cache is an
`LRUCache` object. It has a fixed `capacity`, a map `cacheMap` from key to
`cacheEntry` (key and content bytes) and a doubly linked recency list
`cacheList` with the most recently used entry at the front. There are three
operations:

- `Get` returns the content on a hit and moves the entry to the front.
- `Set` either replaces an existing key's content and promotes it, or, for a
  new key, calls `evict` when the list length equals the capacity and then
  pushes the key at the front.
- `evict` removes the back entry from both structures.

The project has three modules:

- `LruSpec` (`lru_spec.dfy`) models the cache as a value. A `Cache` holds the
  capacity, the entry map and the recency order as a sequence of keys, front
  first. `AfterGet`, `GetResult`, `AfterSet` and `AfterEvict` say what each
  operation does and returns. The invariant `Consistent` says the map and the
  list hold the same keys, the list has no duplicates, and each entry records
  its own key. `Valid` adds the capacity bound. The lemmas state each
  operation's cases and prove that the invariant is preserved.
- `LruHistory` (`lru_history.dfy`) is about whole sequences of calls. The bound
  holds after every call. The recency list is always ordered by last use, so
  the back entry, which `evict` removes, is the least recently used one.
  Filling a cache with C + 1 distinct keys evicts the first key. With capacity
  0 the cache grows without bound.
- `LruCache` (`lru_cache.dfy`) is the imperative model: class `LRUCache` with
  the fields `capacity`, `cacheMap` and `cacheList`. Its methods `Get`, `Set`
  and `Evict` change the object in place. Each method is proved to change the
  object exactly as the matching `LruSpec` function says, and to keep `Valid()`.

Capacity zero. A cache of capacity 0 might be expected to retain nothing. The
code does not behave that way, and the model follows the code. On the first
`Set`, the list length 0 equals the capacity, so `evict` runs. It finds no
back element and does nothing (server.go:78-79). The entry is then pushed
(server.go:71). From then on the length never equals 0 again, so nothing is
ever evicted. `LruSpec.ZeroCapacityKeeps` and
`LruHistory.ZeroCapacityUnbounded` prove this. The class constructor requires
a capacity of at least 1. The only construction in the program uses 50
(server.go:87).

## Model

| member | source | states |
|---|---|---|
| `LruSpec.Without` | server.go:44 | unlinking a key from the recency list leaves exactly the other keys, is never longer, and changes nothing when the key is absent |
| `LruSpec.WithoutNoDup` | server.go:58 | unlinking keeps a duplicate-free list duplicate-free and, when the key was listed, shortens it by exactly one |
| `LruSpec.SizeAgrees` | server.go:26-27 | when map and list agree, the map size equals the list length |
| `LruSpec.NewCacheValid` | server.go:30-36 | a new cache is empty, consistent and within capacity, and every Get on it misses |
| `LruSpec.GetSpec` | server.go:43-49 | Get hits exactly when the key is in the map. A hit returns the stored content and puts the key at the front, with the map, the size and the other keys' relative order unchanged. A miss returns nil and false and leaves the cache identical |
| `LruSpec.RepeatedGet` | server.go:43-46 | a second Get of the same key changes nothing more: promotion is idempotent |
| `LruSpec.EvictSpec` | server.go:77-85 | evict on a non-empty list removes exactly the back key from both map and list, shrinks both by one and keeps every other entry. On an empty list it is a no-op. Consistency is preserved |
| `LruSpec.SetExisting` | server.go:57-62 | Set on a present key replaces its content and moves it to the front. The key set, the size, the other entries and their relative order are unchanged, and nothing is evicted |
| `LruSpec.SetNewFull` | server.go:64-73 | Set on a new key when the list length equals the capacity removes exactly the back key, then adds the new key at the front. The size is unchanged and the surviving entries are untouched |
| `LruSpec.SetNewSpare` | server.go:67-73 | Set on a new key with spare room adds it at the front of the unchanged old order, removes nothing, and grows the size by one |
| `LruSpec.ConsistentPreserved` | server.go:38-85 | Get, Set and evict each keep map and list in agreement with no duplicates, for any capacity, and Set keeps the capacity |
| `LruSpec.ValidPreserved` | server.go:64-66 | with capacity at least one, Get and Set keep the size within capacity |
| `LruSpec.SetThenGet` | server.go:57-73 | after Set(k, v), Get(k) returns (v, true), and k is the most recently used key |
| `LruSpec.UpdateTwice` | server.go:57-62 | Set(k, v1) then Set(k, v2): the second Set changes neither the size nor the order, and Get(k) returns v2 |
| `LruSpec.ZeroCapacityKeeps` | server.go:64-79 | with capacity 0 or below, Set of a new key always grows the list by one and the key is then found |
| `LruSpec.PromotionOnRead` | server.go:38-85 | capacity 2, Set k1, Set k2, Get k1, Set k3: k2 is evicted, k1 and k3 are kept, and the order is [k3, k1] |
| `LruHistory.RunConsistent` | server.go:38-85 | any sequence of Get and Set calls keeps map and list in agreement and leaves the capacity unchanged |
| `LruHistory.RunValid` | server.go:64-73 | capacity invariant: from a valid cache with capacity at least one, every sequence of calls keeps map size == list length <= capacity |
| `LruHistory.RankedWithout` | server.go:44 | unlinking a key from a list keeps the remaining keys in their rank order |
| `LruHistory.RecencyOrdered` | server.go:43-73 | after any sequence of calls on a new cache, every listed key was named by some call. A key nearer the front was named more recently than every key behind it |
| `LruHistory.BackIsLeastRecent` | server.go:77-82 | the back of the list, the key evict removes, is cached and least recently used among all cached keys |
| `LruHistory.FillInOrder` | server.go:64-73 | Sets of at most C distinct keys (any number when C <= 0) evict nothing, list the keys newest first and keep each key's content |
| `LruHistory.FirstInsertedEvicted` | server.go:64-85 | with capacity C >= 1, C + 1 Sets of distinct keys evict the first key, and all the others return their content |
| `LruHistory.ZeroCapacityUnbounded` | server.go:64-79 | with capacity 0, n Sets of distinct keys leave n entries: the bound does not hold |
| `LruCache.LRUCache.constructor` | server.go:30-36 | NewLRUCache: the given capacity, an empty map and an empty list, and the invariant holds |
| `LruCache.LRUCache.Get` | server.go:38-50 | returns (content, true) on a hit and moves the key to the front, or (nil, false) on a miss with nothing changed. The map is never changed and the invariant is kept. The new state equals `AfterGet` of the old |
| `LruCache.LRUCache.Set` | server.go:52-75 | the key ends up at the front holding the new content, and the invariant, including the capacity bound, is kept. An existing key keeps the key set and size. A new key at full length replaces the back key. A new key with spare room is added. The new state equals `AfterSet` of the old |
| `LruCache.LRUCache.Evict` | server.go:77-85 | removes the back key from map and list, or does nothing on an empty list, and keeps them in agreement. The new state equals `AfterEvict` of the old |
| `LruCache.ClientPromotionOnRead` | server.go:38-75 | a caller that uses only the method contracts: capacity 2, Set k1, Set k2, Get k1, Set k3, then Get k1 hits with v1, Get k2 misses, Get k3 hits with v3 |

## Left out

- The `sync.Mutex` in `LRUCache` and its lock and unlock calls (server.go:24, 39-40, 53-54) are left out. The methods are modelled as sequential calls with exclusive access.
- The `log.Println` calls are left out: they are output only.
- The list element handle `cacheEntry.listElement` and the internals of Go's `container/list` are left out. The recency list is a sequence of keys, and a key's position in it stands for its handle. `MoveToFront`, `PushFront`, `Back` and `Remove` become sequence operations. This model does not capture constant-time updates.
- Content slices are values in the model. Go's `Get` returns the stored slice itself, which aliases the cached bytes; that sharing is not modelled. The nil slice returned on a miss is the empty sequence.
- `LruCache.LRUCache.constructor`: requires a capacity of at least 1, whereas `NewLRUCache` accepts any `int`. What the code does with capacity 0 or below is modelled and proved on the value model (`LruSpec.ZeroCapacityKeeps`, `LruHistory.ZeroCapacityUnbounded`). Go's `int` is 64 bits, but list lengths never come near its range, so sizes are unbounded integers.
- The process-wide `var cache` (server.go:87) is left out. The model uses fresh instances.
- The HTTP handler in `main` and the gin routing (server.go:89-111) are left out as network plumbing. In that handler, a failed page lookup responds not-found and is never passed to `Set` (server.go:100-106).
- `getManPage` (server.go:113-122) is left out: it is filesystem lookups.
- `convertToPlainText` (server.go:124-150) is left out: it runs `zcat` and `groff` as subprocesses.
- `removeFormatting` (server.go:152-155) is left out. It wraps Go's regular-expression library, and its pattern as written cannot be read reliably.
