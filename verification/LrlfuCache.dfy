/**
  The fixed-capacity cache over the eviction container: a hash table of values with iterators
  into the container, and the policy that keeps the two together.
 */
module LrlfuCache {
  import opened Wrappers
  import opened LfuRows
  import opened LfuState
  import opened LfuCache

  /** A value and the iterator to its entry in the container. */
  datatype Cached<K, V> = Cached(data: V, lit: Entry<K>)

  type Hash<K, V> = map<K, Cached<K, V>>

  /** Every iterator points to the entry of its key, and every entry is pointed to. */
  ghost predicate Matched<K, V>(hash: Hash<K, V>, entries: set<Entry<K>>) {
    && (forall k :: k in hash ==> hash[k].lit in entries && hash[k].lit.key == k)
    && (forall e :: e in entries ==> e.key in hash && hash[e.key].lit == e)
  }

  lemma MatchedInsert<K, V>(hash: Hash<K, V>, entries: set<Entry<K>>, data: V, e: Entry<K>)
    requires Matched(hash, entries) && e.key !in hash
    ensures Matched(hash[e.key := Cached(data, e)], entries + {e})
  {
  }

  lemma MatchedErase<K, V>(hash: Hash<K, V>, entries: set<Entry<K>>, e: Entry<K>)
    requires Matched(hash, entries) && e in entries
    ensures e.key in hash && Matched(hash - {e.key}, entries - {e})
  {
  }

  lemma ErasedSize<K, V>(hash: Hash<K, V>, key: K)
    requires key in hash
    ensures |hash - {key}| == |hash| - 1
  {
    assert (hash - {key}).Keys == hash.Keys - {key};
    assert |hash.Keys| == |hash| && |(hash - {key}).Keys| == |hash - {key}|;
  }

  lemma InsertedSize<K, V>(hash: Hash<K, V>, key: K, c: Cached<K, V>)
    ensures |hash[key := c]| == |hash| + if key in hash then 0 else 1
  {
    assert hash[key := c].Keys == hash.Keys + {key};
    assert |hash.Keys| == |hash| && |hash[key := c].Keys| == |hash[key := c]|;
  }

  /** The values by key. */
  function Values<K, V>(hash: Hash<K, V>): (m: map<K, V>)
    ensures m.Keys == hash.Keys && forall k :: k in hash ==> m[k] == hash[k].data
  {
    map k | k in hash :: hash[k].data
  }

  lemma ValuesErased<K, V>(hash: Hash<K, V>, key: K)
    ensures Values(hash - {key}) == Values(hash) - {key}
  {
  }

  lemma ValuesInserted<K, V>(hash: Hash<K, V>, key: K, c: Cached<K, V>)
    ensures Values(hash[key := c]) == Values(hash)[key := c.data]
  {
  }

  class Cache<K(==, !new), V> {
    const capacity: nat
    const container: Container<K>
    var hash: Hash<K, V>

    /** Hash table and container hold the same keys, at most as many as there is room for. */
    ghost predicate Valid()
      reads this, container, Objects(container.groups, container.rows)
    {
      container.Valid() && Matched(hash, container.entries) && 1 <= capacity && |hash| <= capacity
    }

    ghost function Contents(): map<K, V>
      reads this
    {
      Values(hash)
    }

    /** The entry of a key, if it has one: no other changes its frequency or time. */
    ghost function Touched(key: K): set<Entry<K>>
      reads this
    {
      if key in hash then {hash[key].lit} else {}
    }

    constructor (capacity: nat)
      requires capacity >= 1
      ensures Valid() && Contents() == map[] && this.capacity == capacity
      ensures fresh(container) && container.nodes == {} && container.entries == {} && container.now == 0
    {
      this.capacity, hash := capacity, map[];
      container := new Container();
    }

    /** Takes over a hash table that matches the container already. */
    method Store(h: Hash<K, V>)
      requires container.Valid() && Matched(h, container.entries) && 1 <= capacity && |h| <= capacity
      modifies this`hash
      ensures Valid() && hash == h
    {
      assert (this as object) !in Objects(container.groups, container.rows);
      hash := h;
      assert container.Valid();
    }

    // ---- the policy ----

    /** Counts a touch of the key. */
    method Replace(key: K)
      requires Valid() && key in hash
      modifies container, container.nodes, container.entries`newer, container.entries`older, hash[key].lit
      ensures Valid() && container.now == old(container.now) + 1 && container.entries == old(container.entries) &&
        hash == old(hash)
      ensures hash[key].lit.hits == old(hash[key].lit.hits) + 1 && hash[key].lit.touched == old(container.now)
      ensures fresh(container.nodes - old(container.nodes))
    {
      container.Replace(hash[key].lit);
    }

    lemma SomeEntry()
      requires Valid() && |hash| > 0
      ensures container.entries != {}
    {
      var k :| k in hash;
      assert hash[k].lit in container.entries;
    }

    /** Takes the coldest entry out of the container: touched least often, and of these longest ago. */
    method EvictEntry() returns (key: K, ghost e: Entry<K>)
      requires container.Valid() && container.entries != {}
      modifies container, container.nodes, container.entries`older
      ensures container.Valid() && container.now == old(container.now) && hash == old(hash)
      ensures e in old(container.entries) && key == e.key && container.entries == old(container.entries) - {e}
      ensures forall x :: x in old(container.entries) ==> old(NotAfter(e, x))
      ensures container.nodes == old(container.nodes)
    {
      var k;
      ghost var gone;
      k, gone := container.Evict();
      key, e := k.value, gone;
    }

    /** Takes its key out of the hash table. */
    method Forget(key: K, ghost e: Entry<K>, ghost entries: set<Entry<K>>)
      requires container.Valid() && container.entries == entries - {e} && 1 <= capacity
      requires Matched(hash, entries) && |hash - {key}| <= capacity && e in entries && e.key == key
      modifies this`hash
      ensures Valid() && |hash| == |old(hash)| - 1
      ensures key in old(Contents()) && Contents() == old(Contents()) - {key}
    {
      MatchedErase(hash, entries, e);
      Store(hash - {key});
      ErasedSize(old(hash), key);
      ValuesErased(old(hash), key);
    }

    /** Removes the coldest key from both. */
    method Evict() returns (ghost e: Entry<K>)
      requires Valid() && |hash| > 0
      modifies this`hash, container, container.nodes, container.entries`older
      ensures Valid() && container.now == old(container.now) && |hash| == |old(hash)| - 1
      ensures e in old(container.entries) && forall x :: x in old(container.entries) ==> old(NotAfter(e, x))
      ensures e.key in old(Contents()) && Contents() == old(Contents()) - {e.key}
      ensures container.entries == old(container.entries) - {e} && container.nodes == old(container.nodes)
    {
      SomeEntry();
      var key;
      key, e := EvictEntry();
      ErasedSize(hash, key);
      Forget(key, e, old(container.entries));
    }

    method InsertEntry(key: K) returns (e: Entry<K>)
      requires container.Valid()
      modifies container, container.nodes, container.entries`newer
      ensures container.Valid() && container.now == old(container.now) + 1 && hash == old(hash)
      ensures fresh(e) && e.key == key && e.hits == 1 && e.touched == old(container.now) &&
        container.entries == old(container.entries) + {e}
      ensures fresh(container.nodes - old(container.nodes))
    {
      e := container.FirstInsert(key);
    }

    /** Adds an entry to the container and its key to the hash table, which has room. */
    method FirstInsert(key: K, data: V) returns (e: Entry<K>)
      requires Valid() && key !in hash && |hash| < capacity
      modifies this`hash, container, container.nodes, container.entries`newer
      ensures Valid() && container.now == old(container.now) + 1 && Contents() == old(Contents())[key := data]
      ensures fresh(e) && e.key == key && e.hits == 1 && e.touched == old(container.now) &&
        container.entries == old(container.entries) + {e}
      ensures fresh(container.nodes - old(container.nodes))
    {
      ghost var entries := container.entries;
      e := InsertEntry(key);
      assert Matched(hash, entries);
      Remember(key, data, e, entries);
    }

    method Remember(key: K, data: V, e: Entry<K>, ghost entries: set<Entry<K>>)
      requires container.Valid() && container.entries == entries + {e} && e.key == key
      requires Matched(hash, entries) && key !in hash && |hash| < capacity
      modifies this`hash
      ensures Valid() && hash == old(hash)[key := Cached(data, e)] && Contents() == old(Contents())[key := data]
    {
      MatchedInsert(hash, entries, data, e);
      InsertedSize(hash, key, Cached(data, e));
      Store(hash[key := Cached(data, e)]);
      ValuesInserted(old(hash), key, Cached(data, e));
    }

    // ---- the cache ----

    /** A hit counts as a touch. */
    method GetValue(key: K) returns (value: Option<V>)
      requires Valid()
      modifies container, container.nodes
      modifies container.entries`newer, container.entries`older, Touched(key)
      ensures Valid() && hash == old(hash)
      ensures value == (if key in Contents() then Some(Contents()[key]) else None)
      ensures value.Some? ==>
        hash[key].lit.hits == old(hash[key].lit.hits) + 1 && hash[key].lit.touched == old(container.now)
      ensures fresh(container.nodes - old(container.nodes)) && container.entries == old(container.entries)
    {
      value := None;
      if key in hash {
        value := Some(hash[key].data);
        Replace(key);
      }
    }

    /** Makes room when the cache is full; victim is the coldest entry, which then goes. */
    method MakeRoom() returns (ghost victim: Entry?<K>)
      requires Valid()
      modifies this`hash, container, container.nodes, container.entries`older
      ensures Valid() && container.now == old(container.now) && |hash| < capacity
      ensures victim == null <==> |old(hash)| < capacity
      ensures victim == null ==> hash == old(hash) && container.entries == old(container.entries)
      ensures victim != null ==> victim in old(container.entries) && forall x :: x in old(container.entries) ==>
        old(NotAfter(victim, x))
      ensures victim != null ==>
        container.entries == old(container.entries) - {victim} && Contents() == old(Contents()) - {victim.key}
      ensures container.nodes == old(container.nodes)
    {
      victim := null;
      if |hash| >= capacity {
        victim := Evict();
      }
    }

    /** A new key, in the place of the coldest when the cache is full. */
    method InsertNew(key: K, data: V) returns (ghost victim: Entry?<K>)
      requires Valid() && key !in hash
      modifies this`hash, container, container.nodes, container.entries`older, container.entries`newer
      ensures Valid() && container.now == old(container.now) + 1
      ensures victim == null <==> |old(hash)| < capacity
      ensures victim != null ==> victim in old(container.entries) && forall x :: x in old(container.entries) ==>
        old(NotAfter(victim, x))
      ensures Contents() == (if victim == null then old(Contents()) else old(Contents()) - {victim.key})[key := data]
      ensures key in hash && hash[key].lit.hits == 1 && hash[key].lit.touched == old(container.now)
      ensures fresh(container.nodes - old(container.nodes)) && fresh(hash[key].lit)
      ensures container.entries ==
        (if victim == null then old(container.entries) else old(container.entries) - {victim}) + {hash[key].lit}
    {
      ghost var nodes := container.nodes;
      victim := MakeRoom();
      var e := FirstInsert(key, data);
      assert fresh(container.nodes - nodes);
    }

    /** An existing key is touched and keeps its value. */
    method InsertValue(key: K, data: V) returns (inserted: bool, ghost victim: Entry?<K>)
      requires Valid()
      modifies this`hash, container, container.nodes
      modifies container.entries`newer, container.entries`older, Touched(key)
      ensures Valid() && container.now == old(container.now) + 1 && key in hash
      ensures inserted <==> key !in old(hash)
      ensures !inserted ==> hash == old(hash) && hash[key].lit.hits == old(hash[key].lit.hits) + 1
      ensures inserted ==> (victim == null <==> |old(hash)| < capacity) && hash[key].lit.hits == 1
      ensures inserted && victim != null ==>
        victim in old(container.entries) && forall x :: x in old(container.entries) ==> old(NotAfter(victim, x))
      ensures inserted ==>
        Contents() == (if victim == null then old(Contents()) else old(Contents()) - {victim.key})[key := data]
      ensures hash[key].lit.touched == old(container.now)
      ensures fresh(container.nodes - old(container.nodes))
      ensures !inserted ==> container.entries == old(container.entries)
      ensures inserted ==> fresh(hash[key].lit)
      ensures inserted ==>
        container.entries == (if victim == null then old(container.entries) else old(container.entries) - {victim}) +
        {hash[key].lit}
    {
      inserted, victim := key !in hash, null;
      if inserted {
        victim := InsertNew(key, data);
      } else {
        Replace(key);
      }
    }

    /** Overwrites the value of a key that is there. */
    method Overwrite(key: K, data: V)
      requires Valid() && key in hash
      modifies this`hash
      ensures Valid() && hash == old(hash)[key := Cached(data, old(hash)[key].lit)] &&
        Contents() == old(Contents())[key := data]
      ensures container.nodes == old(container.nodes) && container.entries == old(container.entries) &&
        container.now == old(container.now)
    {
      var c := Cached(data, hash[key].lit);
      InsertedSize(hash, key, c);
      Store(hash[key := c]);
      ValuesInserted(old(hash), key, c);
    }

    method UpdateOld(key: K, data: V)
      requires Valid() && key in hash
      modifies this`hash, container, container.nodes
      modifies container.entries`newer, container.entries`older, Touched(key)
      ensures Valid() && container.now == old(container.now) + 1 && key in hash &&
        Contents() == old(Contents())[key := data]
      ensures hash[key].lit.hits == old(hash[key].lit.hits) + 1 && hash[key].lit.touched == old(container.now)
      ensures fresh(container.nodes - old(container.nodes)) && container.entries == old(container.entries)
    {
      Overwrite(key, data);
      ghost var h := hash;
      Replace(key);
      assert hash == h;
    }

    /** An existing key is touched and gets the value. */
    method UpdateValue(key: K, data: V) returns (ghost victim: Entry?<K>)
      requires Valid()
      modifies this`hash, container, container.nodes
      modifies container.entries`newer, container.entries`older, Touched(key)
      ensures Valid() && container.now == old(container.now) + 1 && key in hash
      ensures victim != null <==> key !in old(hash) && |old(hash)| >= capacity
      ensures victim != null ==> victim in old(container.entries) && forall x :: x in old(container.entries) ==>
        old(NotAfter(victim, x))
      ensures Contents() == (if victim == null then old(Contents()) else old(Contents()) - {victim.key})[key := data]
      ensures hash[key].lit.hits == if key in old(hash) then old(hash[key].lit.hits) + 1 else 1
      ensures hash[key].lit.touched == old(container.now)
      ensures fresh(container.nodes - old(container.nodes)) && (key !in old(hash) ==> fresh(hash[key].lit))
      ensures container.entries ==
        (if victim == null then old(container.entries) else old(container.entries) - {victim}) + {hash[key].lit}
    {
      victim := null;
      if key in hash {
        UpdateOld(key, data);
      } else {
        victim := InsertNew(key, data);
      }
    }
  }
}
