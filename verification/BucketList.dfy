/** The list of key-value pairs of one bucket, as the code between lock and unlock works on it. */
module BucketList {
  import opened Wrappers

  datatype Pair<K, V> = Pair(key: K, value: V)

  type Items<K, V> = seq<Pair<K, V>>

  /** The value get finds: that of the first pair with the key. */
  function Lookup<K(==), V>(items: Items<K, V>, key: K): Option<V> {
    if items == [] then None
    else if items[0].key == key then Some(items[0].value)
    else Lookup(items[1..], key)
  }

  ghost predicate Distinct<K, V>(items: Items<K, V>) {
    forall i, j :: 0 <= i < j < |items| ==> items[i].key != items[j].key
  }

  ghost predicate HasKey<K, V>(items: Items<K, V>, key: K) {
    exists i :: 0 <= i < |items| && items[i].key == key
  }

  /** after is items with the value of the key replaced, or with a new pair behind the others. */
  ghost predicate IsPut<K(!new), V(!new)>(items: Items<K, V>, key: K, value: V, overwrite: bool, after: Items<K, V>) {
    && after != []
    && (Distinct(items) ==> Distinct(after))
    && (forall k :: HasKey(after, k) <==> HasKey(items, k) || k == key)
    && (forall k :: k != key ==> Lookup(after, k) == Lookup(items, k))
    && Lookup(after, key) == if overwrite || !HasKey(items, key) then Some(value) else Lookup(items, key)
  }

  ghost predicate IsErased<K(!new), V(!new)>(items: Items<K, V>, key: K, after: Items<K, V>) {
    && Distinct(after)
    && (forall k :: HasKey(after, k) <==> HasKey(items, k) && k != key)
    && (forall k :: Lookup(after, k) == if k == key then None else Lookup(items, k))
  }

  lemma {:induction false} LookupNone<K, V>(items: Items<K, V>, key: K)
    ensures Lookup(items, key) == None <==> !HasKey(items, key)
  {
    if items != [] {
      LookupNone(items[1..], key);
      if i :| 0 <= i < |items| && items[i].key == key {
        assert i > 0 ==> items[1..][i - 1].key == key;
      }
      if j :| 0 <= j < |items[1..]| && items[1..][j].key == key {
        assert items[j + 1].key == key;
      }
    }
  }

  /** The first pair with the key decides. */
  lemma {:induction false} LookupAt<K, V>(items: Items<K, V>, key: K, i: nat)
    requires i < |items| && items[i].key == key && forall j :: 0 <= j < i ==> items[j].key != key
    ensures Lookup(items, key) == Some(items[i].value)
  {
    if i > 0 {
      LookupAt(items[1..], key, i - 1);
    }
  }

  /** Pairs with the same keys, whose values differ at most under one key. */
  lemma {:induction false} LookupSame<K, V>(items: Items<K, V>, after: Items<K, V>, k: K)
    requires |items| == |after| && forall i :: 0 <= i < |items| ==> after[i].key == items[i].key
    requires forall i :: 0 <= i < |items| && items[i].key == k ==> after[i] == items[i]
    ensures Lookup(after, k) == Lookup(items, k)
  {
    if items != [] {
      assert after[0].key == items[0].key;
      LookupSame(items[1..], after[1..], k);
    }
  }

  lemma {:induction false} LookupConcat<K, V>(a: Items<K, V>, b: Items<K, V>, k: K)
    ensures Lookup(a + b, k) == if Lookup(a, k).Some? then Lookup(a, k) else Lookup(b, k)
  {
    if a == [] {
      assert a + b == b;
    } else {
      assert (a + b)[1..] == a[1..] + b;
      LookupConcat(a[1..], b, k);
    }
  }

  lemma AppendIsPut<K(!new), V(!new)>(items: Items<K, V>, key: K, value: V, overwrite: bool)
    requires !HasKey(items, key)
    ensures IsPut(items, key, value, overwrite, items + [Pair(key, value)])
  {
    var after := items + [Pair(key, value)];
    assert after[|items|].key == key;
    forall k ensures HasKey(after, k) <==> HasKey(items, k) || k == key {
      if HasKey(items, k) {
        var i :| 0 <= i < |items| && items[i].key == k;
        assert after[i].key == k;
      }
    }
    forall k
      ensures Lookup(after, k) == if Lookup(items, k).Some? then Lookup(items, k) else Lookup([Pair(key, value)], k) {
      LookupConcat(items, [Pair(key, value)], k);
    }
    forall k | k != key ensures Lookup([Pair(key, value)], k) == None {
      LookupNone([Pair(key, value)], k);
    }
    LookupNone(items, key);
  }

  lemma ReplaceIsPut<K(!new), V(!new)>(items: Items<K, V>, key: K, value: V, overwrite: bool, after: Items<K, V>)
    requires HasKey(items, key) && |after| == |items|
    requires forall i :: 0 <= i < |items| ==>
      after[i] == if overwrite && items[i].key == key then Pair(key, value) else items[i]
    ensures IsPut(items, key, value, overwrite, after)
  {
    forall k ensures HasKey(after, k) <==> HasKey(items, k) {
      if i :| 0 <= i < |items| && items[i].key == k {
        assert after[i].key == k;
      }
    }
    forall k | k != key || !overwrite ensures Lookup(after, k) == Lookup(items, k) {
      LookupSame(items, after, k);
    }
    if overwrite {
      var i := First(items, key);
      LookupAt(after, key, i);
    }
  }

  lemma First<K, V>(items: Items<K, V>, key: K) returns (i: nat)
    requires HasKey(items, key)
    ensures i < |items| && items[i].key == key && forall j :: 0 <= j < i ==> items[j].key != key
  {
    i := 0;
    while items[i].key != key
      invariant i <= |items| && forall j :: 0 <= j < i ==> items[j].key != key
      invariant i < |items|
      decreases |items| - i
    {
      i := i + 1;
      if i == |items| {
        assert false;
      }
    }
  }

  /** Both loops of insert: every pair with the key is rewritten, and without one a pair is appended. */
  method Put<K(==, !new), V(!new)>(items: Items<K, V>, key: K, value: V, overwrite: bool) returns (after: Items<K, V>)
    ensures IsPut(items, key, value, overwrite, after)
  {
    after := items;
    var found, i := false, 0;
    while i < |items|
      invariant 0 <= i <= |items| == |after|
      invariant found <==> exists j :: 0 <= j < i && items[j].key == key
      invariant forall j :: 0 <= j < i ==>
        after[j] == if overwrite && items[j].key == key then Pair(key, value) else items[j]
      invariant forall j :: i <= j < |items| ==> after[j] == items[j]
    {
      if items[i].key == key {
        if overwrite {
          after := after[i := Pair(key, value)];
        }
        found := true;
      }
      i := i + 1;
    }
    if !found {
      assert after == items;
      after := after + [Pair(key, value)];
      AppendIsPut(items, key, value, overwrite);
    } else {
      ReplaceIsPut(items, key, value, overwrite, after);
    }
  }

  /** get's search. */
  method Find<K(==), V>(items: Items<K, V>, key: K) returns (found: Option<V>)
    ensures found == Lookup(items, key)
  {
    for i := 0 to |items|
      invariant forall j :: 0 <= j < i ==> items[j].key != key
    {
      if items[i].key == key {
        LookupAt(items, key, i);
        return Some(items[i].value);
      }
    }
    LookupNone(items, key);
    return None;
  }

  lemma ErasedAt<K(!new), V(!new)>(items: Items<K, V>, key: K, i: nat)
    requires Distinct(items) && i < |items| && items[i].key == key
    ensures IsErased(items, key, items[..i] + items[i + 1..])
  {
    var after := items[..i] + items[i + 1..];
    forall k ensures HasKey(after, k) <==> HasKey(items, k) && k != key {
      if j :| 0 <= j < |after| && after[j].key == k {
        assert items[if j < i then j else j + 1].key == k;
      }
      if HasKey(items, k) && k != key {
        var j :| 0 <= j < |items| && items[j].key == k;
        assert after[if j < i then j else j - 1].key == k;
      }
    }
    LookupNone(after, key);
    forall k | k != key ensures Lookup(after, k) == Lookup(items, k) {
      LookupConcat(items[..i], items[i + 1..], k);
      LookupConcat(items[..i], items[i..], k);
      assert items == items[..i] + items[i..];
      assert items[i..][1..] == items[i + 1..];
    }
  }

  /** remove's loop, which stops at the first pair with the key. */
  method Erase<K(==, !new), V(!new)>(items: Items<K, V>, key: K) returns (after: Items<K, V>)
    requires Distinct(items)
    ensures IsErased(items, key, after)
  {
    for i := 0 to |items|
      invariant forall j :: 0 <= j < i ==> items[j].key != key
    {
      if items[i].key == key {
        ErasedAt(items, key, i);
        return items[..i] + items[i + 1..];
      }
    }
    LookupNone(items, key);
    return items;
  }
}
