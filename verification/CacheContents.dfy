/** What the buckets hold, and what every step means to a reader. */
module CacheContents {
  import opened Wrappers
  import opened BucketList
  import opened CacheState
  import opened SlotPlaces

  /** A bucket has a slot when it has items, no key twice, and only keys that hash to it. */
  ghost predicate BucketInOrder<T, K(!new), V>(hash: K -> nat, n: nat, b: nat, item: Bucket<T, K, V>)
    requires n > 0
  {
    && (item.items == [] <==> item.info == -1) && Distinct(item.items)
    && forall k :: HasKey(item.items, k) ==> BucketOf(hash, n, k) == b
  }

  ghost predicate InOrder<T(!new), K(!new), V>(hash: K -> nat, s: State<T, K, V>) {
    && |s.buckets| > 0
    && (forall b :: 0 <= b < |s.buckets| ==> BucketInOrder(hash, |s.buckets|, b, s.buckets[b]))
    && (forall t :: t in s.pcs && s.pcs[t].Inserting() ==> BucketOf(hash, |s.buckets|, s.pcs[t].key) == s.pcs[t].bucket)
  }

  lemma PublishKeepsOrder<T(!new), K(!new), V>(hash: K -> nat, s: State<T, K, V>, t: T, s': State<T, K, V>,
      place: seq<Place<T>>)
    requires InOrder(hash, s) && Placed(s, place) && Shaped(s) && PublishStep(s, t, s')
    ensures InOrder(hash, s')
    ensures s.buckets[s.pcs[t].bucket].items == []
  {
    var b := s.pcs[t].bucket;
    assert BucketInOrder(hash, |s.buckets|, b, s.buckets[b]);
    assert s'.buckets[b].items == [Pair(s.pcs[t].key, s.pcs[t].value)];
  }

  lemma InsertKeepsOrder<T(!new), K(!new), V(!new)>(hash: K -> nat, s: State<T, K, V>, t: T, key: K, value: V,
      overwrite: bool, s': State<T, K, V>)
    requires InOrder(hash, s) && Shaped(s) && InsertStep(hash, s, t, key, value, overwrite, s')
    ensures InOrder(hash, s')
  {
  }

  lemma RemoveKeepsOrder<T(!new), K(!new), V(!new)>(hash: K -> nat, s: State<T, K, V>, t: T, key: K, s': State<T, K, V>)
    requires InOrder(hash, s) && Shaped(s) && RemoveStep(hash, s, t, key, s')
    ensures InOrder(hash, s')
  {
    var b := BucketOf(hash, |s.buckets|, key);
    if s'.buckets[b].items != [] {
      assert HasKey(s'.buckets[b].items, s'.buckets[b].items[0].key);
    }
  }

  lemma StepKeepsOrder<T(!new), K(!new), V(!new)>(hash: K -> nat, s: State<T, K, V>, step: Step<T, K, V>,
      s': State<T, K, V>, place: seq<Place<T>>)
    requires InOrder(hash, s) && Placed(s, place) && Next(hash, s, step, s')
    ensures InOrder(hash, s')
  {
    match step
    case Insert(t, key, value, overwrite) => InsertKeepsOrder(hash, s, t, key, value, overwrite, s');
    case Pop(t) =>
    case Exchange(t, ok) =>
    case Publish(t) => PublishKeepsOrder(hash, s, t, s', place);
    case Get(t, key) =>
    case Remove(t, key) => RemoveKeepsOrder(hash, s, t, key, s');
    case Clear(t, b) =>
    case GiveBack(t) =>
  }

  // ---- meaning ----

  datatype Effect<K, V> = Nothing | Wrote(key: K, value: V) | Erased(key: K) | Cleared(bucket: nat)

  /** What a step does to the keys and values that readers can find. */
  ghost function EffectOf<T(!new), K(!new), V>(hash: K -> nat, s: State<T, K, V>, step: Step<T, K, V>): Effect<K, V>
    requires Shaped(s)
  {
    match step
    case Insert(_, key, value, overwrite) =>
      var item := s.buckets[BucketOf(hash, |s.buckets|, key)];
      if item.info != -1 && (overwrite || !HasKey(item.items, key)) then Wrote(key, value) else Nothing
    case Publish(t) =>
      if t in s.pcs && s.pcs[t].Publishing? then Wrote(s.pcs[t].key, s.pcs[t].value) else Nothing
    case Remove(_, key) => Erased(key)
    case Clear(_, b) => Cleared(b)
    case Pop(_) => Nothing
    case Exchange(_, _) => Nothing
    case Get(_, _) => Nothing
    case GiveBack(_) => Nothing
  }

  ghost predicate Touches<K, V>(hash: K -> nat, n: nat, e: Effect<K, V>, key: K)
    requires n > 0
  {
    match e
    case Nothing => false
    case Wrote(k, _) => k == key
    case Erased(k) => k == key
    case Cleared(b) => b == BucketOf(hash, n, key)
  }

  ghost function After<K, V>(hash: K -> nat, n: nat, e: Effect<K, V>, key: K, before: Option<V>): Option<V>
    requires n > 0
  {
    if !Touches(hash, n, e, key) then before
    else if e.Wrote? then Some(e.value)
    else None
  }

  lemma OtherBucket<T, K, V>(hash: K -> nat, s: State<T, K, V>, s': State<T, K, V>, b: nat, key: K)
    requires 0 < |s.buckets| == |s'.buckets| && b < |s.buckets|
    requires s'.buckets == s.buckets[b := s'.buckets[b]] && BucketOf(hash, |s.buckets|, key) != b
    ensures Answer(hash, s', key) == Answer(hash, s, key)
  {
  }

  lemma PublishMeans<T(!new), K(!new), V>(hash: K -> nat, s: State<T, K, V>, t: T, s': State<T, K, V>,
      place: seq<Place<T>>, key: K)
    requires InOrder(hash, s) && Placed(s, place) && Shaped(s) && PublishStep(s, t, s')
    ensures Answer(hash, s', key) == After(hash, |s.buckets|, Wrote(s.pcs[t].key, s.pcs[t].value), key,
      Answer(hash, s, key))
  {
    PublishKeepsOrder(hash, s, t, s', place);
    var b := s.pcs[t].bucket;
    LookupNone(s'.buckets[b].items, key);
    if BucketOf(hash, |s.buckets|, key) != b {
      OtherBucket(hash, s, s', b, key);
    }
  }

  lemma EmptiedMeans<T(!new), K(!new), V>(hash: K -> nat, s: State<T, K, V>, t: T, b: nat, s': State<T, K, V>, key: K)
    requires Shaped(s) && b < |s.buckets| && s' == Emptied(s, t, b)
    ensures Answer(hash, s', key) == After(hash, |s.buckets|, Effect<K, V>.Cleared(b), key, Answer(hash, s, key))
  {
    if BucketOf(hash, |s.buckets|, key) != b {
      OtherBucket(hash, s, s', b, key);
    }
  }

  lemma StepMeans<T(!new), K(!new), V(!new)>(hash: K -> nat, s: State<T, K, V>, step: Step<T, K, V>,
      s': State<T, K, V>, place: seq<Place<T>>, key: K)
    requires InOrder(hash, s) && Placed(s, place) && Next(hash, s, step, s')
    ensures |s'.buckets| == |s.buckets|
    ensures Answer(hash, s', key) == After(hash, |s.buckets|, EffectOf(hash, s, step), key, Answer(hash, s, key))
  {
    match step
    case Insert(t, k, value, overwrite) =>
    case Pop(t) =>
    case Exchange(t, ok) =>
    case Publish(t) => PublishMeans(hash, s, t, s', place, key);
    case Get(t, k) =>
    case Remove(t, k) =>
    case Clear(t, b) =>
      if b < |s.buckets| {
        EmptiedMeans(hash, s, t, b, s', key);
      }
    case GiveBack(t) =>
  }
}
