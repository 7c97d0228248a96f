/**
  The concurrent cache as a transition system. Any number of threads take steps; a step is
  what one thread does between taking and releasing a lock, or one atomic exchange.
 */
module CacheState {
  import opened Wrappers
  import opened BucketList
  import Bits

  const FREE_LISTS := 16

  /** The free list of a slot, and the one a bucket takes its slot from. */
  function ListOf(x: int): (i: nat)
    ensures i < FREE_LISTS
  {
    x % FREE_LISTS
  }

  datatype Bucket<T, K, V> = Bucket(items: Items<K, V>, info: int, writer: Option<T>)

  /** Where a thread is inside an operation. In the first three cases it holds the bucket's write lock. */
  datatype Pc<K, V> =
    | Popping(bucket: nat, key: K, value: V)
    | Claiming(bucket: nat, key: K, value: V, slot: int)
    | Publishing(bucket: nat, key: K, value: V, slot: int)
    | Returning(slot: int)
  {
    predicate Inserting() {
      !Returning?
    }

    predicate Holds(x: int) {
      !Popping? && slot == x
    }
  }

  /**
    owner is item_cache_index of every slot, -1 if unused. Threads without a pc are idle.
    lost records the slots dropped after a failed exchange; no step reads it.
   */
  datatype State<T, K, V> = State(
    buckets: seq<Bucket<T, K, V>>,
    owner: seq<int>,
    free: seq<seq<int>>,
    sizes: seq<int>,
    pcs: map<T, Pc<K, V>>,
    lost: set<int>)

  datatype Step<T, K, V> =
    | Insert(thread: T, key: K, value: V, overwrite: bool)
    | Pop(thread: T)
    | Exchange(thread: T, ok: bool)
    | Publish(thread: T)
    | Get(thread: T, key: K)
    | Remove(thread: T, key: K)
    | Clear(thread: T, bucket: nat)
    | GiveBack(thread: T)

  function BucketOf<K>(hash: K -> nat, n: nat, key: K): (b: nat)
    requires n > 0
    ensures b < n
  {
    hash(key) % n
  }

  /** Keys share a bucket exactly when their hashes differ by a multiple of the number of buckets. */
  lemma SameBucket<K>(hash: K -> nat, n: nat, k1: K, k2: K)
    requires n > 0
    ensures BucketOf(hash, n, k1) == BucketOf(hash, n, k2) <==> (hash(k1) - hash(k2)) % n == 0
  {
    Bits.SameRemainder(hash(k1), hash(k2), n);
  }

  ghost predicate Shaped<T, K, V>(s: State<T, K, V>) {
    |s.buckets| > 0 && |s.free| == |s.sizes| == FREE_LISTS
  }

  ghost predicate Unlocked<T, K, V>(s: State<T, K, V>, t: T, b: nat) {
    t !in s.pcs && b < |s.buckets| && s.buckets[b].writer == None
  }

  // ---- init ----

  ghost predicate NoRepeat(list: seq<int>) {
    forall j, k :: 0 <= j < k < |list| ==> list[j] != list[k]
  }

  ghost predicate Below(n: nat, x: int, i: nat) {
    0 <= x < n && ListOf(x) == i
  }

  ghost predicate FreshList(n: nat, list: seq<int>, i: nat) {
    NoRepeat(list) && forall x :: x in list <==> Below(n, x, i)
  }

  lemma FreshNext(n: nat, list: seq<int>, i: nat)
    requires FreshList(n, list, i)
    ensures FreshList(n + 1, if ListOf(n) == i then list + [n] else list, i)
  {
    assert n in list <==> Below(n, n, i);
    var after := if ListOf(n) == i then list + [n] else list;
    forall x ensures x in after <==> Below(n + 1, x, i) {
      assert x in list <==> Below(n, x, i);
    }
  }

  /** The first n slots are all in their lists, once. */
  ghost predicate FreshLists(n: nat, free: seq<seq<int>>, sizes: seq<int>) {
    && |free| == |sizes| == FREE_LISTS
    && forall i :: 0 <= i < FREE_LISTS ==> sizes[i] == |free[i]| && FreshList(n, free[i], i)
  }

  method InitLists(n: nat) returns (free: seq<seq<int>>, sizes: seq<int>)
    ensures FreshLists(n, free, sizes)
    ensures forall i :: 0 <= i < 16 ==> |free[i]| == (n + 15 - i) / 16
  {
    free := seq(FREE_LISTS, _ => []);
    sizes := seq(FREE_LISTS, _ => 0);
    for x := 0 to n
      invariant FreshLists(x, free, sizes)
      invariant forall i :: 0 <= i < 16 ==> |free[i]| == (x + 15 - i) / 16
    {
      var i := ListOf(x);
      forall j | 0 <= j < FREE_LISTS ensures FreshList(x + 1, if j == i then free[j] + [x] else free[j], j) {
        FreshNext(x, free[j], j);
      }
      free := free[i := free[i] + [x]];
      sizes := sizes[i := sizes[i] + 1];
    }
  }

  ghost predicate Init<T, K, V>(s: State<T, K, V>) {
    && |s.buckets| > 0 && (forall b :: 0 <= b < |s.buckets| ==> s.buckets[b] == Bucket([], -1, None))
    && (forall x :: 0 <= x < |s.owner| ==> s.owner[x] == -1)
    && FreshLists(|s.owner|, s.free, s.sizes) && s.pcs == map[] && s.lost == {}
  }

  // ---- insert ----

  /** Takes the bucket's lock. A bucket in use is updated at once, an empty one first needs a slot. */
  ghost predicate InsertStep<T(!new), K(!new), V(!new)>(hash: K -> nat, s: State<T, K, V>, t: T, key: K, value: V,
      overwrite: bool, s': State<T, K, V>)
    requires Shaped(s)
  {
    var b := BucketOf(hash, |s.buckets|, key);
    var item := s.buckets[b];
    && Unlocked(s, t, b)
    && if item.info == -1 then
         s' == s.(buckets := s.buckets[b := item.(writer := Some(t))], pcs := s.pcs[t := Popping(b, key, value)])
       else
         && |s'.buckets| == |s.buckets|
         && IsPut(item.items, key, value, overwrite, s'.buckets[b].items)
         && s' == s.(buckets := s.buckets[b := item.(items := s'.buckets[b].items)])
  }

  function Unlock<T, K, V>(s: State<T, K, V>, t: T, b: nat): State<T, K, V>
    requires b < |s.buckets|
  {
    s.(buckets := s.buckets[b := s.buckets[b].(writer := None)], pcs := s.pcs - {t})
  }

  /** Takes the first slot of the bucket's free list; insert fails without one. */
  ghost predicate PopStep<T, K, V>(s: State<T, K, V>, t: T, s': State<T, K, V>)
    requires Shaped(s)
  {
    && t in s.pcs && s.pcs[t].Popping? && s.pcs[t].bucket < |s.buckets|
    && var Popping(b, key, value) := s.pcs[t];
       var i := ListOf(b);
       if s.free[i] == [] then s' == Unlock(s, t, b)
       else
         var x := s.free[i][0];
         s' == s.(free := s.free[i := s.free[i][1..]], sizes := s.sizes[i := s.sizes[i] - 1],
                  pcs := if x >= |s.owner| then s.pcs else s.pcs[t := Claiming(b, key, value, x)])
  }

  /** compare_exchange_weak on the slot: it may fail without reason, and then the slot is dropped. */
  ghost predicate ExchangeStep<T, K, V>(s: State<T, K, V>, t: T, ok: bool, s': State<T, K, V>)
    requires Shaped(s)
  {
    && t in s.pcs && s.pcs[t].Claiming? && s.pcs[t].bucket < |s.buckets| && 0 <= s.pcs[t].slot < |s.owner|
    && var Claiming(b, key, value, x) := s.pcs[t];
       if ok then
         s.owner[x] == -1 && s' == s.(owner := s.owner[x := b], pcs := s.pcs[t := Publishing(b, key, value, x)])
       else
         s' == Unlock(s, t, b).(lost := s.lost + {x})
  }

  ghost predicate PublishStep<T, K, V>(s: State<T, K, V>, t: T, s': State<T, K, V>)
    requires Shaped(s)
  {
    && t in s.pcs && s.pcs[t].Publishing? && s.pcs[t].bucket < |s.buckets|
    && var Publishing(b, key, value, x) := s.pcs[t];
       s' == s.(buckets := s.buckets[b := Bucket(s.buckets[b].items + [Pair(key, value)], x, None)], pcs := s.pcs - {t})
  }

  // ---- remove and clear ----

  /** Empties the bucket and resets its slot, which then is in the hands of the thread. */
  function Emptied<T, K, V>(s: State<T, K, V>, t: T, b: nat): State<T, K, V>
    requires b < |s.buckets|
  {
    var x, used := s.buckets[b].info, 0 <= s.buckets[b].info < |s.owner|;
    s.(buckets := s.buckets[b := Bucket([], -1, None)],
       owner := if used then s.owner[x := -1] else s.owner,
       pcs := if used then s.pcs[t := Returning(x)] else s.pcs)
  }

  ghost predicate RemoveStep<T(!new), K(!new), V(!new)>(hash: K -> nat, s: State<T, K, V>, t: T, key: K,
      s': State<T, K, V>)
    requires Shaped(s)
  {
    var b := BucketOf(hash, |s.buckets|, key);
    && Unlocked(s, t, b) && |s'.buckets| == |s.buckets|
    && IsErased(s.buckets[b].items, key, s'.buckets[b].items)
    && s' == if s'.buckets[b].items != []
             then s.(buckets := s.buckets[b := s.buckets[b].(items := s'.buckets[b].items)])
             else Emptied(s, t, b)
  }

  ghost predicate ClearStep<T, K, V>(s: State<T, K, V>, t: T, b: nat, s': State<T, K, V>)
    requires Shaped(s)
  {
    if b >= |s.buckets| then t !in s.pcs && s' == s
    else Unlocked(s, t, b) && s' == Emptied(s, t, b)
  }

  ghost predicate GiveBackStep<T, K, V>(s: State<T, K, V>, t: T, s': State<T, K, V>)
    requires Shaped(s)
  {
    && t in s.pcs && s.pcs[t].Returning?
    && var x := s.pcs[t].slot;
       var i := ListOf(x);
       s' == s.(free := s.free[i := s.free[i] + [x]], sizes := s.sizes[i := s.sizes[i] + 1], pcs := s.pcs - {t})
  }

  // ---- the whole system ----

  ghost predicate Next<T(!new), K(!new), V(!new)>(hash: K -> nat, s: State<T, K, V>, step: Step<T, K, V>,
      s': State<T, K, V>) {
    Shaped(s) &&
    match step
    case Insert(t, key, value, overwrite) => InsertStep(hash, s, t, key, value, overwrite, s')
    case Pop(t) => PopStep(s, t, s')
    case Exchange(t, ok) => ExchangeStep(s, t, ok, s')
    case Publish(t) => PublishStep(s, t, s')
    case Get(t, key) => Unlocked(s, t, BucketOf(hash, |s.buckets|, key)) && s' == s
    case Remove(t, key) => RemoveStep(hash, s, t, key, s')
    case Clear(t, b) => ClearStep(s, t, b, s')
    case GiveBack(t) => GiveBackStep(s, t, s')
  }

  /** What get answers in a state. */
  function Answer<T, K(==), V>(hash: K -> nat, s: State<T, K, V>, key: K): Option<V>
    requires |s.buckets| > 0
  {
    Lookup(s.buckets[BucketOf(hash, |s.buckets|, key)].items, key)
  }

  /** Every interleaving: the states along a sequence of steps. */
  ghost predicate Behaviour<T(!new), K(!new), V(!new)>(hash: K -> nat, steps: seq<Step<T, K, V>>,
      states: seq<State<T, K, V>>) {
    && |states| == |steps| + 1
    && forall n :: 0 <= n < |steps| ==> Next(hash, states[n], steps[n], states[n + 1])
  }
}
