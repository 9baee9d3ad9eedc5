/**
  The LRUCache object of server.go: a capacity, a map from key to entry and a
  recency list, updated in place by Get, Set and evict. Each method is proved
  to change the object as the matching function of LruSpec says, and to keep
  the map and the list in agreement and within capacity.
 */
module LruCache {
  import LruSpec

  class LRUCache {
    const capacity: int
    var cacheMap: map<string, LruSpec.CacheEntry>
    /** The recency list, front (most recently used) at index 0. */
    var cacheList: seq<string>

    /** The object's state as a value of the model. */
    function View(): LruSpec.Cache
      reads this
    {
      LruSpec.Cache(capacity, cacheMap, cacheList)
    }

    /** The object invariant: map and list agree, and the size is within a
        capacity of at least one. */
    ghost predicate Valid()
      reads this
    {
      1 <= capacity && LruSpec.Valid(View())
    }

    /** NewLRUCache: an empty map and an empty list with the given capacity.
        A capacity below one is excluded: with zero the cache would never
        evict (see LruSpec.ZeroCapacityKeeps). */
    constructor (capacity: int)
      requires 1 <= capacity
      ensures Valid()
      ensures this.capacity == capacity && cacheMap == map[] && cacheList == []
      ensures View() == LruSpec.NewCache(capacity)
    {
      this.capacity := capacity;
      cacheMap := map[];
      cacheList := [];
    }

    /** On a hit, returns the content and true and moves the key to the front;
        on a miss, returns nil and false and changes nothing. */
    method Get(key: string) returns (content: LruSpec.Bytes, found: bool)
      requires Valid()
      modifies this
      ensures Valid()
      ensures View() == LruSpec.AfterGet(old(View()), key)
      ensures (content, found) == LruSpec.GetResult(old(View()), key)
      ensures found <==> key in old(cacheMap)
      ensures cacheMap == old(cacheMap)
      ensures |cacheList| == |old(cacheList)|
      ensures found ==> content == old(cacheMap)[key].content && cacheList[0] == key
      ensures found ==> LruSpec.Without(cacheList, key) == LruSpec.Without(old(cacheList), key)
      ensures !found ==> content == [] && cacheList == old(cacheList)
    {
      LruSpec.GetSpec(View(), key);
      LruSpec.ValidPreserved(View(), key, []);
      if key in cacheMap {
        var entry := cacheMap[key];
        cacheList := LruSpec.MoveToFront(cacheList, key);
        return entry.content, true;
      }
      return [], false;
    }

    /** Stores `content` under `key`. An existing key has its content replaced
        and moves to the front; a new key first evicts the back key when the
        list is full, then goes in at the front. */
    method Set(key: string, content: LruSpec.Bytes)
      requires Valid()
      modifies this
      ensures Valid()
      ensures View() == LruSpec.AfterSet(old(View()), key, content)
      ensures key in cacheMap && cacheMap[key].content == content && cacheList[0] == key
      ensures key in old(cacheMap) ==>
        && cacheMap.Keys == old(cacheMap).Keys
        && |cacheList| == |old(cacheList)|
        && (forall k :: k in old(cacheMap) && k != key ==> cacheMap[k] == old(cacheMap)[k])
      ensures key !in old(cacheMap) && |old(cacheList)| == capacity ==>
        var back := old(cacheList)[|old(cacheList)| - 1];
        && cacheMap.Keys == old(cacheMap).Keys - {back} + {key}
        && cacheList == [key] + old(cacheList)[..|old(cacheList)| - 1]
      ensures key !in old(cacheMap) && |old(cacheList)| < capacity ==>
        && cacheMap.Keys == old(cacheMap).Keys + {key}
        && cacheList == [key] + old(cacheList)
    {
      ghost var before := View();
      LruSpec.ValidPreserved(before, key, content);
      if key in cacheMap {
        LruSpec.SetExisting(before, key, content);
        var entry := cacheMap[key];
        cacheList := LruSpec.MoveToFront(cacheList, key);
        cacheMap := cacheMap[key := entry.(content := content)];
        return;
      }
      if |cacheList| == capacity {
        LruSpec.SetNewFull(before, key, content);
        Evict();
      } else {
        LruSpec.SetNewSpare(before, key, content);
      }
      var entry := LruSpec.CacheEntry(key, content);
      cacheList := [key] + cacheList;
      cacheMap := cacheMap[key := entry];
    }

    /** evict: removes the back (least recently used) key from the map and the
        list; does nothing when the list is empty. */
    method Evict()
      requires LruSpec.Consistent(View())
      modifies this
      ensures LruSpec.Consistent(View())
      ensures View() == LruSpec.AfterEvict(old(View()))
      ensures old(cacheList) == [] ==> cacheMap == old(cacheMap) && cacheList == []
      ensures old(cacheList) != [] ==>
        var back := old(cacheList)[|old(cacheList)| - 1];
        && cacheMap.Keys == old(cacheMap).Keys - {back}
        && cacheList == old(cacheList)[..|old(cacheList)| - 1]
    {
      LruSpec.EvictSpec(View());
      if |cacheList| > 0 {
        var back := cacheList[|cacheList| - 1];
        var entry := cacheMap[back];
        cacheMap := cacheMap - {entry.key};
        cacheList := cacheList[..|cacheList| - 1];
      }
    }
  }

  /** A caller of the class: with capacity 2, Set(k1), Set(k2), Get(k1), Set(k3)
      leaves k2 evicted and k1 and k3 cached, as the method contracts alone show. */
  method ClientPromotionOnRead(k1: string, k2: string, k3: string, v1: LruSpec.Bytes, v2: LruSpec.Bytes, v3: LruSpec.Bytes)
    returns (r1: (LruSpec.Bytes, bool), r2: (LruSpec.Bytes, bool), r3: (LruSpec.Bytes, bool))
    requires k1 != k2 && k2 != k3 && k1 != k3
    ensures r1 == (v1, true) && r2 == ([], false) && r3 == (v3, true)
  {
    var cache := new LRUCache(2);
    cache.Set(k1, v1);
    cache.Set(k2, v2);
    var _, _ := cache.Get(k1);
    cache.Set(k3, v3);
    var content, found := cache.Get(k1);
    r1 := (content, found);
    content, found := cache.Get(k2);
    r2 := (content, found);
    content, found := cache.Get(k3);
    r3 := (content, found);
  }
}
