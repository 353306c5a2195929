/**
 * LRUCache: a LinkedHashMap in access order whose removeEldestEntry hook
 * drops the least recently used entry once an insertion takes the size past
 * the capacity. The cache is its entries plus the access order of its keys,
 * eldest first.
 */
module LRUCaches {
  import opened Wrappers

  /**
   * The two ways construction fails, both IllegalArgumentException: a
   * negative capacity is refused by LinkedHashMap's own constructor before
   * the cache's check runs; zero is refused by the cache's check.
   */
  datatype CacheError = IllegalInitialCapacity | CapacityNotPositive

  predicate Distinct<K(==)>(s: seq<K>) {
    forall i, j :: 0 <= i < j < |s| ==> s[i] != s[j]
  }

  /** The sequence with k taken out, the other elements keeping their relative order. */
  function Without<K(==)>(s: seq<K>, k: K): (r: seq<K>)
    ensures k !in r
    ensures forall x :: x in r ==> x in s
    ensures forall x :: x in s && x != k ==> x in r
    ensures Distinct(s) ==> Distinct(r) && |r| == if k in s then |s| - 1 else |s|
    ensures k !in s ==> r == s
  {
    if |s| == 0 then []
    else if s[0] == k then
      assert Distinct(s) ==> k !in s[1..];
      Without(s[1..], k)
    else
      var r := Without(s[1..], k);
      assert Distinct(s) ==> s[0] !in r;
      assert k !in s ==> [s[0]] + r == s by {
        if k !in s {
          assert k !in s[1..];
          assert s == [s[0]] + s[1..];
        }
      }
      [s[0]] + r
  }

  /** The tail of a distinct sequence is distinct and does not hold its head. */
  lemma DistinctTail<K>(s: seq<K>)
    requires |s| > 0 && Distinct(s)
    ensures Distinct(s[1..]) && s[0] !in s[1..]
  {
    var tail := s[1..];
    forall i, j | 0 <= i < j < |tail| ensures tail[i] != tail[j] {
      assert tail[i] == s[i + 1] && tail[j] == s[j + 1];
    }
    forall x | x in tail ensures x != s[0] {
      var j :| 0 <= j < |tail| && tail[j] == x;
      assert s[j + 1] == x;
    }
  }

  /** Splicing one position out of s, seen from s's tail. */
  lemma SpliceTail<K>(s: seq<K>, j: nat)
    requires j < |s| - 1
    ensures s[..j + 1] + s[j + 2..] == [s[0]] + (s[1..][..j] + s[1..][j + 1..])
  {
    assert s[..j + 1] == [s[0]] + s[1..][..j];
    assert s[j + 2..] == s[1..][j + 1..];
  }

  /** Taking a key out of a distinct order cuts it out at its position: the keys before and after it stay in order. */
  lemma {:induction false} WithoutKeepsOrder<K>(s: seq<K>, k: K)
    requires Distinct(s) && k in s
    ensures exists i :: 0 <= i < |s| && s[i] == k && Without(s, k) == s[..i] + s[i + 1..]
  {
    DistinctTail(s);
    var tail := s[1..];
    if s[0] == k {
      assert Without(s, k) == s[..0] + s[1..];
    } else {
      assert k in tail;
      WithoutKeepsOrder(tail, k);
      var j :| 0 <= j < |tail| && tail[j] == k && Without(tail, k) == tail[..j] + tail[j + 1..];
      SpliceTail(s, j);
      assert s[j + 1] == k;
      assert Without(s, k) == s[..j + 1] + s[j + 2..];
    }
  }

  /** An access: k becomes the most recently used key, the others keep their order. */
  function Touch<K(==)>(s: seq<K>, k: K): (r: seq<K>)
    ensures |r| > 0 && r[|r| - 1] == k
    ensures forall x :: x in r ==> x in s || x == k
    ensures forall x :: x in s ==> x in r
    ensures Distinct(s) ==> Distinct(r) && |r| == if k in s then |s| else |s| + 1
    ensures k !in s ==> r == s + [k]
    ensures Distinct(s) && k in s ==> exists i :: 0 <= i < |s| && s[i] == k && r == s[..i] + s[i + 1..] + [k]
  {
    if Distinct(s) && k in s then
      WithoutKeepsOrder(s, k);
      Without(s, k) + [k]
    else
      Without(s, k) + [k]
  }

  lemma RemoveCard<K, V>(m: map<K, V>, k: K)
    requires k in m
    ensures |m - {k}| == |m| - 1
  {
    assert (m - {k}).Keys == m.Keys - {k};
  }

  lemma UpdateThenRemove<K, V>(m: map<K, V>, k: K, v: V, e: K)
    requires e != k
    ensures m[k := v] - {e} == (m - {e})[k := v]
  {
  }

  class LRUCache<K(==), V> {
    const capacity: int
    var entries: map<K, V>
    /** Keys from least to most recently accessed. */
    var order: seq<K>

    ghost predicate Valid()
      reads this
    {
      && capacity > 0
      && Distinct(order)
      && (forall k :: k in entries ==> k in order)
      && (forall k :: k in order ==> k in entries)
      && |entries| == |order|
      && |entries| <= capacity
    }

    constructor (capacity: int)
      requires capacity > 0
      ensures Valid() && this.capacity == capacity && entries == map[] && order == []
    {
      this.capacity := capacity;
      entries := map[];
      order := [];
    }

    function Size(): nat
      reads this
    {
      |entries|
    }

    /** containsKey(key): a lookup that does not count as an access. */
    method ContainsKey(key: K) returns (r: bool)
      ensures r <==> key in entries
    {
      r := key in entries;
    }

    /** get(key): the value, or null on a miss; a hit makes key the most recently used. */
    method Get(key: K) returns (r: Option<V>)
      requires Valid()
      modifies this
      ensures Valid()
      ensures r == if key in old(entries) then Some(old(entries)[key]) else None
      ensures entries == old(entries)
      ensures order == if key in old(entries) then Touch(old(order), key) else old(order)
    {
      if key in entries {
        r := Some(entries[key]);
        order := Touch(order, key);
      } else {
        r := None;
      }
    }

    /**
     * put(key, value): returns the previous value. An existing key takes the
     * new value and becomes most recently used; nothing is evicted. A new key
     * is appended as most recently used; when that takes the size past the
     * capacity, the eldest entry, and only it, is removed.
     */
    method Put(key: K, value: V) returns (previous: Option<V>)
      requires Valid()
      modifies this
      ensures Valid()
      ensures previous == if key in old(entries) then Some(old(entries)[key]) else None
      ensures key in old(entries) ==>
        entries == old(entries)[key := value] && order == Touch(old(order), key) && |entries| == |old(entries)|
      ensures key !in old(entries) && |old(entries)| < capacity ==>
        entries == old(entries)[key := value] && order == old(order) + [key]
      ensures key !in old(entries) && |old(entries)| == capacity ==>
        var eldest := old(order)[0];
        eldest != key && entries == (old(entries) - {eldest})[key := value] && order == old(order)[1..] + [key]
    {
      if key in entries {
        previous := Some(entries[key]);
        Refresh(key, value);
      } else {
        previous := None;
        Insert(key, value);
      }
    }

    /** put of a key already present: a new value and an access, no eviction. */
    method Refresh(key: K, value: V)
      requires Valid() && key in entries
      modifies this
      ensures Valid()
      ensures entries == old(entries)[key := value] && order == Touch(old(order), key)
      ensures |entries| == |old(entries)|
    {
      entries := entries[key := value];
      order := Touch(order, key);
    }

    /** put of a new key: appended as most recently used, then the eldest is evicted if the size exceeds the capacity. */
    method Insert(key: K, value: V)
      requires Valid() && key !in entries
      modifies this
      ensures Valid()
      ensures |old(entries)| < capacity ==> entries == old(entries)[key := value] && order == old(order) + [key]
      ensures |old(entries)| == capacity ==>
        var eldest := old(order)[0];
        eldest != key && entries == (old(entries) - {eldest})[key := value] && order == old(order)[1..] + [key]
    {
      entries := entries[key := value];
      order := order + [key];
      assert Distinct(order);
      if RemoveEldestEntry() {
        assert order[0] == old(order)[0] && order[1..] == old(order)[1..] + [key];
        UpdateThenRemove(old(entries), key, value, order[0]);
        EvictEldest();
      }
    }

    /** The eviction LinkedHashMap performs when removeEldestEntry says so: the eldest entry goes. */
    method EvictEldest()
      requires |order| > 0 && Distinct(order) && |entries| == |order|
      requires forall k :: k in entries ==> k in order
      requires forall k :: k in order ==> k in entries
      modifies this
      ensures entries == old(entries) - {old(order)[0]} && order == old(order)[1..]
      ensures Distinct(order) && |entries| == |order|
      ensures forall k :: k in entries ==> k in order
      ensures forall k :: k in order ==> k in entries
    {
      var eldest := order[0];
      RemoveCard(entries, eldest);
      entries := entries - {eldest};
      order := order[1..];
      forall k | k in entries
        ensures k in order
      {
        assert k in old(order);
        var i :| 0 <= i < |old(order)| && old(order)[i] == k;
        assert i != 0 && old(order)[i] == order[i - 1];
      }
    }

    /** removeEldestEntry: called after an insertion; asks for eviction once the size exceeds the capacity. */
    function RemoveEldestEntry(): bool
      reads this
    {
      |entries| > capacity
    }

    /** remove(key): returns the previous value; the other entries keep their values and order. */
    method Remove(key: K) returns (previous: Option<V>)
      requires Valid()
      modifies this
      ensures Valid()
      ensures previous == if key in old(entries) then Some(old(entries)[key]) else None
      ensures entries == old(entries) - {key}
      ensures order == Without(old(order), key)
    {
      previous := if key in entries then Some(entries[key]) else None;
      entries := entries - {key};
      order := Without(order, key);
    }
  }

  /** new LRUCache(capacity): fails for a capacity that is not positive. */
  method NewLRUCache<K(==), V>(capacity: int) returns (r: Result<LRUCache<K, V>, CacheError>)
    ensures r == Err(IllegalInitialCapacity) <==> capacity < 0
    ensures r == Err(CapacityNotPositive) <==> capacity == 0
    ensures r.Ok? ==> fresh(r.value) && r.value.Valid() && r.value.capacity == capacity && r.value.entries == map[]
  {
    if capacity < 0 {
      return Err(IllegalInitialCapacity);
    }
    if capacity <= 0 {
      return Err(CapacityNotPositive);
    }
    var cache := new LRUCache(capacity);
    return Ok(cache);
  }

  /** Three puts of distinct keys into a cache of capacity 2: the first key is evicted. */
  method PutThree<K(==), V>(k1: K, v1: V, k2: K, v2: V, k3: K, v3: V) returns (cache: LRUCache<K, V>)
    requires k1 != k2 && k1 != k3 && k2 != k3
    ensures fresh(cache) && cache.Valid()
    ensures k1 !in cache.entries
    ensures k2 in cache.entries && cache.entries[k2] == v2
    ensures k3 in cache.entries && cache.entries[k3] == v3
  {
    cache := new LRUCache(2);
    var _ := cache.Put(k1, v1);
    var _ := cache.Put(k2, v2);
    assert cache.order == [k1, k2];
    var _ := cache.Put(k3, v3);
  }

  /** With capacity 2, putting key1, key2, key3 evicts key1 and keeps key2 and key3 with their values. */
  method EvictionScenario() returns (r1: Option<string>, r2: Option<string>, r3: Option<string>)
    ensures r1 == None && r2 == Some("value2") && r3 == Some("value3")
  {
    assert "key1" != "key2" && "key1" != "key3" && "key2" != "key3" by {
      assert "key1"[3] != "key2"[3] && "key1"[3] != "key3"[3] && "key2"[3] != "key3"[3];
    }
    var cache := PutThree("key1", "value1", "key2", "value2", "key3", "value3");
    r1 := cache.Get("key1");
    r2 := cache.Get("key2");
    r3 := cache.Get("key3");
  }

  /** A put followed by a get of the same key returns the value put. */
  method PutThenGet<K(==), V>(cache: LRUCache<K, V>, key: K, value: V) returns (r: Option<V>)
    requires cache.Valid()
    modifies cache
    ensures r == Some(value)
    ensures cache.Valid() && |cache.order| > 0 && cache.order[|cache.order| - 1] == key
  {
    var _ := cache.Put(key, value);
    r := cache.Get(key);
  }
}
