/**
  What every operation of the concurrent cache achieves: in every reachable state its steps can be
  taken, an insert takes a free slot whenever its list has one, and then readers find the value.
 */
module CacheProgress {
  import opened Wrappers
  import opened BucketList
  import opened CacheState
  import opened SlotPlaces
  import opened CacheSafety
  import opened CacheContents
  import opened CacheRuns

  /** The state can occur in some interleaving. */
  ghost predicate Reachable<T(!new), K(!new), V(!new)>(hash: K -> nat, s: State<T, K, V>) {
    exists steps: seq<Step<T, K, V>>, states: seq<State<T, K, V>> :: Leads(hash, steps, states, s)
  }

  ghost predicate Leads<T(!new), K(!new), V(!new)>(hash: K -> nat, steps: seq<Step<T, K, V>>,
      states: seq<State<T, K, V>>, s: State<T, K, V>) {
    Behaviour(hash, steps, states) && Init(states[0]) && states[|steps|] == s
  }

  lemma ReachableInvariant<T(!new), K(!new), V(!new)>(hash: K -> nat, s: State<T, K, V>)
      returns (place: seq<Place<T>>)
    requires Reachable(hash, s)
    ensures Invariant(hash, s, place) && Shaped(s)
  {
    var steps: seq<Step<T, K, V>>, states: seq<State<T, K, V>> :| Leads(hash, steps, states, s);
    var places := RunInvariant(hash, steps, states);
    place := places[|steps|];
  }

  lemma ReachableNext<T(!new), K(!new), V(!new)>(hash: K -> nat, s: State<T, K, V>, step: Step<T, K, V>,
      s': State<T, K, V>)
    requires Reachable(hash, s) && Next(hash, s, step, s')
    ensures Reachable(hash, s')
  {
    var steps: seq<Step<T, K, V>>, states: seq<State<T, K, V>> :| Leads(hash, steps, states, s);
    var steps', states' := steps + [step], states + [s'];
    forall n | 0 <= n < |steps'| ensures Next(hash, states'[n], steps'[n], states'[n + 1]) {
      assert n < |steps| ==> Next(hash, states[n], steps[n], states[n + 1]);
    }
    assert Leads(hash, steps', states', s');
  }

  ghost predicate Enabled<T(!new), K(!new), V(!new)>(hash: K -> nat, s: State<T, K, V>, step: Step<T, K, V>) {
    exists s' :: Next(hash, s, step, s')
  }

  /** Readers of other keys find what they found before. */
  ghost predicate OthersKept<T, K(!new), V>(hash: K -> nat, s: State<T, K, V>, key: K, s': State<T, K, V>) {
    && 0 < |s.buckets| == |s'.buckets|
    && forall k :: k != key ==> Answer(hash, s', k) == Answer(hash, s, k)
  }

  ghost predicate AllKept<T, K(!new), V>(hash: K -> nat, s: State<T, K, V>, s': State<T, K, V>) {
    0 < |s.buckets| == |s'.buckets| && forall k :: Answer(hash, s', k) == Answer(hash, s, k)
  }

  // ---- insert into a bucket in use ----

  lemma PutExists<K(!new), V(!new)>(items: Items<K, V>, key: K, value: V, overwrite: bool) returns (after: Items<K, V>)
    ensures IsPut(items, key, value, overwrite, after)
  {
    if HasKey(items, key) {
      after := seq(|items|, i requires 0 <= i < |items| =>
        if overwrite && items[i].key == key then Pair(key, value) else items[i]);
      ReplaceIsPut(items, key, value, overwrite, after);
    } else {
      after := items + [Pair(key, value)];
      AppendIsPut(items, key, value, overwrite);
    }
  }

  lemma InsertEnabled<T(!new), K(!new), V(!new)>(hash: K -> nat, s: State<T, K, V>, t: T, key: K, value: V,
      overwrite: bool)
    requires Shaped(s) && Unlocked(s, t, BucketOf(hash, |s.buckets|, key))
    ensures Enabled(hash, s, Insert(t, key, value, overwrite))
  {
    var b := BucketOf(hash, |s.buckets|, key);
    var item := s.buckets[b];
    var after := PutExists(item.items, key, value, overwrite);
    var s' := if item.info == -1
      then s.(buckets := s.buckets[b := item.(writer := Some(t))], pcs := s.pcs[t := Popping(b, key, value)])
      else s.(buckets := s.buckets[b := item.(items := after)]);
    assert s'.buckets[b].items == if item.info == -1 then item.items else after;
    assert Next(hash, s, Insert(t, key, value, overwrite), s');
  }

  /** It writes the value at once, unless the key is there and is not to be overwritten. */
  lemma InsertInUse<T(!new), K(!new), V(!new)>(hash: K -> nat, s: State<T, K, V>, t: T, key: K, value: V,
      overwrite: bool, s': State<T, K, V>)
    requires Reachable(hash, s) && Next(hash, s, Insert(t, key, value, overwrite), s')
    requires s.buckets[BucketOf(hash, |s.buckets|, key)].info != -1
    ensures OthersKept(hash, s, key, s') && t !in s'.pcs
    ensures Answer(hash, s', key) ==
      if overwrite || Answer(hash, s, key) == None then Some(value) else Answer(hash, s, key)
  {
    LookupNone(s.buckets[BucketOf(hash, |s.buckets|, key)].items, key);
  }

  // ---- insert into an empty bucket ----

  /** Some slot of the list that serves the bucket is free. */
  ghost predicate HasFree<T, K, V>(s: State<T, K, V>, b: nat) {
    exists x :: At(s, x, Place<T>.Free) && ListOf(x) == ListOf(b)
  }

  lemma FreeListed<T(!new), K(!new), V(!new)>(hash: K -> nat, s: State<T, K, V>, b: nat)
    requires Reachable(hash, s)
    ensures Shaped(s) && (HasFree(s, b) <==> s.free[ListOf(b)] != [])
    ensures forall x :: x in s.free[ListOf(b)] ==> At(s, x, Place<T>.Free) && ListOf(x) == ListOf(b)
  {
    var place := ReachableInvariant(hash, s);
    var i := ListOf(b);
    assert ListOk(s.free[i], i, place);
    forall x | x in s.free[i] ensures At(s, x, Place<T>.Free) && ListOf(x) == i {
      assert FreeIn(place, x, i);
    }
    if HasFree(s, b) {
      var x :| At(s, x, Place<T>.Free) && ListOf(x) == i;
      var j :| 0 <= j < |s.free| && x in s.free[j];
      assert ListOk(s.free[j], j, place) && FreeIn(place, x, j);
    }
    if s.free[i] != [] {
      assert At(s, s.free[i][0], Place<T>.Free);
    }
  }

  /** It begins by locking the bucket; readers find what they found before, and no slot has moved. */
  lemma InsertEmpty<T(!new), K(!new), V(!new)>(hash: K -> nat, s: State<T, K, V>, t: T, key: K, value: V,
      overwrite: bool, s': State<T, K, V>)
    requires Reachable(hash, s) && Next(hash, s, Insert(t, key, value, overwrite), s')
    requires s.buckets[BucketOf(hash, |s.buckets|, key)].info == -1
    ensures AllKept(hash, s, s') && t in s'.pcs
    ensures s'.pcs[t] == Popping(BucketOf(hash, |s.buckets|, key), key, value)
    ensures forall x, p :: At(s', x, p) <==> At(s, x, p)
  {
    var b := BucketOf(hash, |s.buckets|, key);
    forall x, p ensures At(s', x, p) <==> At(s, x, p) {
    }
  }

  /** A free slot is taken when there is one: only without one the thread gives up. */
  lemma PopTakes<T(!new), K(!new), V(!new)>(hash: K -> nat, s: State<T, K, V>, t: T, s': State<T, K, V>)
    requires Reachable(hash, s) && Next(hash, s, Pop(t), s')
    ensures AllKept(hash, s, s')
    ensures var pc := s.pcs[t];
      if HasFree(s, pc.bucket) then
        && t in s'.pcs && s'.pcs[t].Claiming? && s'.pcs[t] == Claiming(pc.bucket, pc.key, pc.value, s'.pcs[t].slot)
        && At(s, s'.pcs[t].slot, Place<T>.Free) && ListOf(s'.pcs[t].slot) == ListOf(pc.bucket)
        && At(s', s'.pcs[t].slot, HeldBy(t)) &&
          s.free[ListOf(pc.bucket)] == [s'.pcs[t].slot] + s'.free[ListOf(pc.bucket)]
      else
        t !in s'.pcs && Unlocked(s', t, pc.bucket)
  {
    var place := ReachableInvariant(hash, s);
    FreeListed(hash, s, s.pcs[t].bucket);
    if HasFree(s, s.pcs[t].bucket) {
      var i := ListOf(s.pcs[t].bucket);
      assert ListOk(s.free[i], i, place) && s.free[i][0] in s.free[i];
      assert FreeIn(place, s.free[i][0], i);
    }
  }

  lemma PopEnabled<T(!new), K(!new), V(!new)>(hash: K -> nat, s: State<T, K, V>, t: T)
    requires Reachable(hash, s) && t in s.pcs && s.pcs[t].Popping?
    ensures Enabled(hash, s, Step<T, K, V>.Pop(t))
  {
    var place := ReachableInvariant(hash, s);
    var Popping(b, key, value) := s.pcs[t];
    var i := ListOf(b);
    var s' := if s.free[i] == [] then Unlock(s, t, b)
      else s.(free := s.free[i := s.free[i][1..]], sizes := s.sizes[i := s.sizes[i] - 1],
              pcs := if s.free[i][0] >= |s.owner| then s.pcs else s.pcs[t := Claiming(b, key, value, s.free[i][0])]);
    assert Next(hash, s, Step<T, K, V>.Pop(t), s');
  }

  /** The exchange can succeed, and it can fail for no reason; then the slot is lost. */
  lemma ExchangeEnabled<T(!new), K(!new), V(!new)>(hash: K -> nat, s: State<T, K, V>, t: T, ok: bool)
    requires Reachable(hash, s) && t in s.pcs && s.pcs[t].Claiming?
    ensures Enabled(hash, s, Step<T, K, V>.Exchange(t, ok))
  {
    var place := ReachableInvariant(hash, s);
    var Claiming(b, key, value, x) := s.pcs[t];
    var s' := if ok then s.(owner := s.owner[x := b], pcs := s.pcs[t := Publishing(b, key, value, x)])
      else Unlock(s, t, b).(lost := s.lost + {x});
    assert Next(hash, s, Step<T, K, V>.Exchange(t, ok), s');
  }

  lemma ExchangeClaims<T(!new), K(!new), V(!new)>(hash: K -> nat, s: State<T, K, V>, t: T, ok: bool,
      s': State<T, K, V>)
    requires Reachable(hash, s) && Next(hash, s, Exchange(t, ok), s')
    ensures AllKept(hash, s, s')
    ensures var pc := s.pcs[t];
      if ok then t in s'.pcs && s'.pcs[t] == Publishing(pc.bucket, pc.key, pc.value, pc.slot)
      else t !in s'.pcs && Unlocked(s', t, pc.bucket) && At(s', pc.slot, Place<T>.Lost)
  {
  }

  lemma PublishEnabled<T(!new), K(!new), V(!new)>(hash: K -> nat, s: State<T, K, V>, t: T)
    requires Reachable(hash, s) && t in s.pcs && s.pcs[t].Publishing?
    ensures Enabled(hash, s, Step<T, K, V>.Publish(t))
  {
    var place := ReachableInvariant(hash, s);
    var Publishing(b, key, value, x) := s.pcs[t];
    var item := Bucket(s.buckets[b].items + [Pair(key, value)], x, None);
    var s' := s.(buckets := s.buckets[b := item], pcs := s.pcs - {t});
    assert Next(hash, s, Step<T, K, V>.Publish(t), s');
  }

  /** Readers then find the value, and the slot is the bucket's. */
  lemma PublishShows<T(!new), K(!new), V(!new)>(hash: K -> nat, s: State<T, K, V>, t: T, s': State<T, K, V>)
    requires Reachable(hash, s) && Next(hash, s, Publish(t), s')
    ensures var pc := s.pcs[t];
      && OthersKept(hash, s, pc.key, s') && Answer(hash, s', pc.key) == Some(pc.value)
      && t !in s'.pcs && Unlocked(s', t, pc.bucket) && At(s', pc.slot, OwnedBy(pc.bucket))
  {
    var place := ReachableInvariant(hash, s);
    PublishKeepsOrder(hash, s, t, s', place);
    var b, key := s.pcs[t].bucket, s.pcs[t].key;
    forall k | k != key ensures Answer(hash, s', k) == Answer(hash, s, k) {
      PublishMeans(hash, s, t, s', place, k);
    }
    PublishMeans(hash, s, t, s', place, key);
  }

  /** The four steps of an insert into an empty bucket, one after the other. */
  ghost predicate InsertRun<T(!new), K(!new), V(!new)>(hash: K -> nat, s: State<T, K, V>, t: T, key: K, value: V,
      overwrite: bool, a: State<T, K, V>, b: State<T, K, V>, c: State<T, K, V>, d: State<T, K, V>) {
    && Next(hash, s, Insert(t, key, value, overwrite), a) && Next(hash, a, Pop(t), b)
    && Next(hash, b, Exchange(t, true), c) && Next(hash, c, Publish(t), d)
  }

  /** Whenever the list has a free slot the insert can go through... */
  lemma InsertCanSucceed<T(!new), K(!new), V(!new)>(hash: K -> nat, s: State<T, K, V>, t: T, key: K, value: V,
      overwrite: bool) returns (a: State<T, K, V>, b: State<T, K, V>, c: State<T, K, V>, d: State<T, K, V>)
    requires Reachable(hash, s) && |s.buckets| > 0
    requires var i := BucketOf(hash, |s.buckets|, key);
      Unlocked(s, t, i) && s.buckets[i].info == -1 && HasFree(s, i)
    ensures InsertRun(hash, s, t, key, value, overwrite, a, b, c, d)
  {
    var place := ReachableInvariant(hash, s);
    InsertEnabled(hash, s, t, key, value, overwrite);
    a :| Next(hash, s, Insert(t, key, value, overwrite), a);
    InsertEmpty(hash, s, t, key, value, overwrite, a);
    ReachableNext(hash, s, Insert(t, key, value, overwrite), a);
    PopEnabled(hash, a, t);
    b :| Next(hash, a, Step<T, K, V>.Pop(t), b);
    StillFree(hash, s, a, BucketOf(hash, |s.buckets|, key));
    PopTakes(hash, a, t, b);
    ReachableNext(hash, a, Step<T, K, V>.Pop(t), b);
    ExchangeEnabled(hash, b, t, true);
    c :| Next(hash, b, Step<T, K, V>.Exchange(t, true), c);
    ExchangeClaims(hash, b, t, true, c);
    ReachableNext(hash, b, Step<T, K, V>.Exchange(t, true), c);
    PublishEnabled(hash, c, t);
    d :| Next(hash, c, Step<T, K, V>.Publish(t), d);
  }

  lemma StillFree<T(!new), K(!new), V(!new)>(hash: K -> nat, s: State<T, K, V>, a: State<T, K, V>, b: nat)
    requires HasFree(s, b) && forall x, p :: At(a, x, p) <==> At(s, x, p)
    ensures HasFree(a, b)
  {
    var x :| At(s, x, Place<T>.Free) && ListOf(x) == ListOf(b);
    assert At(a, x, Place<T>.Free);
  }

  /** ... and whenever it does, readers find the value. */
  lemma InsertSucceeds<T(!new), K(!new), V(!new)>(hash: K -> nat, s: State<T, K, V>, t: T, key: K, value: V,
      overwrite: bool, a: State<T, K, V>, b: State<T, K, V>, c: State<T, K, V>, d: State<T, K, V>)
    requires Reachable(hash, s) && InsertRun(hash, s, t, key, value, overwrite, a, b, c, d)
    ensures OthersKept(hash, s, key, d) && Answer(hash, d, key) == Some(value) && t !in d.pcs
  {
    var place := ReachableInvariant(hash, s);
    if s.buckets[BucketOf(hash, |s.buckets|, key)].info != -1 {
      InsertInUse(hash, s, t, key, value, overwrite, a);
      assert false;
    }
    InsertEmpty(hash, s, t, key, value, overwrite, a);
    ReachableNext(hash, s, Insert(t, key, value, overwrite), a);
    PopTakes(hash, a, t, b);
    ReachableNext(hash, a, Step<T, K, V>.Pop(t), b);
    ExchangeClaims(hash, b, t, true, c);
    ReachableNext(hash, b, Step<T, K, V>.Exchange(t, true), c);
    PublishShows(hash, c, t, d);
  }

  // ---- get, remove, clear ----

  lemma GetEnabled<T(!new), K(!new), V(!new)>(hash: K -> nat, s: State<T, K, V>, t: T, key: K)
    requires Shaped(s) && Unlocked(s, t, BucketOf(hash, |s.buckets|, key))
    ensures Enabled(hash, s, Step<T, K, V>.Get(t, key))
    ensures forall s' :: Next(hash, s, Step<T, K, V>.Get(t, key), s') ==> s' == s
  {
    assert Next(hash, s, Step<T, K, V>.Get(t, key), s);
  }

  lemma EraseExists<K(!new), V(!new)>(items: Items<K, V>, key: K) returns (after: Items<K, V>)
    requires Distinct(items)
    ensures IsErased(items, key, after)
  {
    if HasKey(items, key) {
      var i := First(items, key);
      after := items[..i] + items[i + 1..];
      ErasedAt(items, key, i);
    } else {
      after := items;
      LookupNone(items, key);
    }
  }

  lemma RemoveEnabled<T(!new), K(!new), V(!new)>(hash: K -> nat, s: State<T, K, V>, t: T, key: K)
    requires Reachable(hash, s) && |s.buckets| > 0 && Unlocked(s, t, BucketOf(hash, |s.buckets|, key))
    ensures Enabled(hash, s, Step<T, K, V>.Remove(t, key))
  {
    var place := ReachableInvariant(hash, s);
    var b := BucketOf(hash, |s.buckets|, key);
    assert BucketInOrder(hash, |s.buckets|, b, s.buckets[b]);
    var after := EraseExists(s.buckets[b].items, key);
    var s' := if after != [] then s.(buckets := s.buckets[b := s.buckets[b].(items := after)]) else Emptied(s, t, b);
    assert s'.buckets[b].items == after;
    assert Next(hash, s, Step<T, K, V>.Remove(t, key), s');
  }

  /** The slot of an emptied bucket is in the hands of the thread. */
  ghost predicate TookSlot<T(!new), K, V>(s: State<T, K, V>, t: T, b: nat, s': State<T, K, V>)
    requires b < |s.buckets|
  {
    if s.buckets[b].info == -1 then t !in s'.pcs
    else t in s'.pcs && s'.pcs[t] == Returning(s.buckets[b].info) && At(s', s.buckets[b].info, HeldBy(t))
  }

  /** The key is gone and no other; with the last key of its bucket the slot goes too. */
  lemma RemoveErases<T(!new), K(!new), V(!new)>(hash: K -> nat, s: State<T, K, V>, t: T, key: K, s': State<T, K, V>)
    requires Reachable(hash, s) && Next(hash, s, Remove(t, key), s')
    ensures OthersKept(hash, s, key, s') && Answer(hash, s', key) == None
    ensures var b := BucketOf(hash, |s.buckets|, key);
      && s'.buckets[b].writer == None
      && if s'.buckets[b].items == [] then TookSlot(s, t, b, s')
         else t !in s'.pcs && s'.buckets[b].info == s.buckets[b].info
  {
    var place := ReachableInvariant(hash, s);
    var b := BucketOf(hash, |s.buckets|, key);
    assert BucketInOrder(hash, |s.buckets|, b, s.buckets[b]);
    forall k | k != key ensures Answer(hash, s', k) == Answer(hash, s, k) {
      if BucketOf(hash, |s.buckets|, k) != b {
        OtherBucket(hash, s, s', b, k);
      }
    }
  }

  lemma ClearEnabled<T(!new), K(!new), V(!new)>(hash: K -> nat, s: State<T, K, V>, t: T, b: nat)
    requires Reachable(hash, s) && Unlocked(s, t, b)
    ensures Enabled(hash, s, Step<T, K, V>.Clear(t, b))
  {
    var place := ReachableInvariant(hash, s);
    assert Next(hash, s, Step<T, K, V>.Clear(t, b), Emptied(s, t, b));
  }

  /** The keys of the bucket are gone and no others, and its slot is in the hands of the thread. */
  lemma ClearErases<T(!new), K(!new), V(!new)>(hash: K -> nat, s: State<T, K, V>, t: T, b: nat, s': State<T, K, V>)
    requires Reachable(hash, s) && Next(hash, s, Clear(t, b), s') && b < |s.buckets|
    ensures 0 < |s.buckets| == |s'.buckets|
    ensures forall k ::
      Answer(hash, s', k) == if BucketOf(hash, |s.buckets|, k) == b then None else Answer(hash, s, k)
    ensures TookSlot(s, t, b, s')
  {
    var place := ReachableInvariant(hash, s);
    forall k ensures Answer(hash, s', k) == if BucketOf(hash, |s.buckets|, k) == b then None else Answer(hash, s, k) {
      EmptiedMeans(hash, s, t, b, s', k);
    }
  }

  lemma GiveBackEnabled<T(!new), K(!new), V(!new)>(hash: K -> nat, s: State<T, K, V>, t: T)
    requires Reachable(hash, s) && t in s.pcs && s.pcs[t].Returning?
    ensures Enabled(hash, s, Step<T, K, V>.GiveBack(t))
  {
    var place := ReachableInvariant(hash, s);
    var x := s.pcs[t].slot;
    var i := ListOf(x);
    var s' := s.(free := s.free[i := s.free[i] + [x]], sizes := s.sizes[i := s.sizes[i] + 1], pcs := s.pcs - {t});
    assert Next(hash, s, Step<T, K, V>.GiveBack(t), s');
  }

  /** The slot is free again, to be taken by the buckets of its list after those that are free already. */
  lemma GiveBackFrees<T(!new), K(!new), V(!new)>(hash: K -> nat, s: State<T, K, V>, t: T, s': State<T, K, V>)
    requires Reachable(hash, s) && Next(hash, s, GiveBack(t), s')
    ensures AllKept(hash, s, s') && t !in s'.pcs && At(s', s.pcs[t].slot, Place<T>.Free)
    ensures var x := s.pcs[t].slot;
      s'.free[ListOf(x)] == s.free[ListOf(x)] + [x]
    ensures forall b: nat :: ListOf(b) == ListOf(s.pcs[t].slot) ==> HasFree(s', b)
  {
    var x := s.pcs[t].slot;
    var i := ListOf(x);
    assert s'.free[i][|s.free[i]|] == x;
    assert At(s', x, Place<T>.Free);
  }

  // ---- the system as a whole ----

  function ThreadOf<T, K, V>(step: Step<T, K, V>): T {
    step.thread
  }

  /**
    A thread inside an operation can always go on, so whoever waits for a lock does not wait for
    ever behind a stuck thread.
   */
  lemma NeverStuck<T(!new), K(!new), V(!new)>(hash: K -> nat, s: State<T, K, V>, t: T)
    requires Reachable(hash, s) && t in s.pcs
    ensures exists step: Step<T, K, V> :: ThreadOf(step) == t && Enabled(hash, s, step)
  {
    match s.pcs[t]
    case Popping(_, _, _) =>
      PopEnabled(hash, s, t);
      assert ThreadOf(Step<T, K, V>.Pop(t)) == t;
    case Claiming(_, _, _, _) =>
      ExchangeEnabled(hash, s, t, true);
      assert ThreadOf(Step<T, K, V>.Exchange(t, true)) == t;
    case Publishing(_, _, _, _) =>
      PublishEnabled(hash, s, t);
      assert ThreadOf(Step<T, K, V>.Publish(t)) == t;
    case Returning(_) =>
      GiveBackEnabled(hash, s, t);
      assert ThreadOf(Step<T, K, V>.GiveBack(t)) == t;
  }

  /** A slot is lost only by a failed exchange. */
  lemma LostOnlyByExchange<T(!new), K(!new), V(!new)>(hash: K -> nat, s: State<T, K, V>, step: Step<T, K, V>,
      s': State<T, K, V>, x: int)
    requires Reachable(hash, s) && Next(hash, s, step, s') && x in s'.lost && x !in s.lost
    ensures step.Exchange? && !step.ok && step.thread in s.pcs && s.pcs[step.thread].Holds(x)
  {
  }
}
