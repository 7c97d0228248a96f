/** Whole runs of the concurrent cache: every interleaving of the steps of any number of threads. */
module CacheRuns {
  import opened Wrappers
  import opened BucketList
  import opened CacheState
  import opened SlotPlaces
  import opened CacheSafety
  import opened CacheContents

  // ---- the invariant holds in every state of every run ----

  ghost predicate Invariant<T(!new), K(!new), V(!new)>(hash: K -> nat, s: State<T, K, V>, place: seq<Place<T>>) {
    Placed(s, place) && InOrder(hash, s)
  }

  lemma InitInvariant<T(!new), K(!new), V(!new)>(hash: K -> nat, s: State<T, K, V>) returns (place: seq<Place<T>>)
    requires Init(s)
    ensures Invariant(hash, s, place) && |place| == |s.owner|
  {
    place := seq(|s.owner|, _ => Free);
    forall i | 0 <= i < FREE_LISTS ensures ListOk(s.free[i], i, place) {
      forall x ensures x in s.free[i] <==> FreeIn(place, x, i) {
        assert FreshList(|s.owner|, s.free[i], i);
        assert x in s.free[i] <==> Below(|s.owner|, x, i);
        assert 0 <= x < |place| ==> place[x] == Free;
      }
    }
  }

  /** The places at every moment: slots only go the ways MayMove allows. */
  ghost predicate Traced<T(!new), K(!new), V(!new)>(hash: K -> nat, states: seq<State<T, K, V>>,
      places: seq<seq<Place<T>>>) {
    && |places| == |states|
    && (forall n :: 0 <= n < |states| ==> Invariant(hash, states[n], places[n]))
    && (forall n :: 0 <= n < |states| - 1 ==> MovedOn(places[n], places[n + 1]))
  }

  lemma {:induction false} RunInvariant<T(!new), K(!new), V(!new)>(hash: K -> nat, steps: seq<Step<T, K, V>>,
      states: seq<State<T, K, V>>) returns (places: seq<seq<Place<T>>>)
    requires Behaviour(hash, steps, states) && Init(states[0])
    ensures Traced(hash, states, places)
    decreases |steps|
  {
    if steps == [] {
      var place := InitInvariant(hash, states[0]);
      places := [place];
    } else {
      var n := |steps| - 1;
      BehaviourPrefix(hash, steps, states);
      places := RunInvariant(hash, steps[..n], states[..n + 1]);
      var place := StepKeepsPlaces(hash, states[n], steps[n], states[n + 1], places[n]);
      StepKeepsOrder(hash, states[n], steps[n], states[n + 1], places[n]);
      TracedNext(hash, states, places, place, n);
      places := places + [place];
    }
  }

  lemma BehaviourPrefix<T(!new), K(!new), V(!new)>(hash: K -> nat, steps: seq<Step<T, K, V>>,
      states: seq<State<T, K, V>>)
    requires Behaviour(hash, steps, states) && steps != []
    ensures var n := |steps| - 1;
      && Behaviour(hash, steps[..n], states[..n + 1]) && states[..n + 1][0] == states[0]
      && Next(hash, states[n], steps[n], states[n + 1])
  {
    var n := |steps| - 1;
    forall m | 0 <= m < n ensures Next(hash, states[..n + 1][m], steps[..n][m], states[..n + 1][m + 1]) {
      assert Next(hash, states[m], steps[m], states[m + 1]);
    }
    assert Next(hash, states[n], steps[n], states[n + 1]);
  }

  lemma TracedNext<T(!new), K(!new), V(!new)>(hash: K -> nat, states: seq<State<T, K, V>>, places: seq<seq<Place<T>>>,
      place: seq<Place<T>>, n: nat)
    requires |states| == n + 2 && Traced(hash, states[..n + 1], places)
    requires Invariant(hash, states[n + 1], place) && MovedOn(places[n], place)
    ensures Traced(hash, states, places + [place])
  {
    var all := places + [place];
    forall m | 0 <= m < |states| ensures Invariant(hash, states[m], all[m]) {
      assert m <= n ==> Invariant(hash, states[..n + 1][m], places[m]);
    }
    forall m | 0 <= m < |states| - 1 ensures MovedOn(all[m], all[m + 1]) {
      assert m < n ==> MovedOn(places[m], places[m + 1]);
    }
  }

  // ---- each slot is in exactly one place ----

  /** The slot is in this place, read off the state alone. */
  ghost predicate At<T, K, V>(s: State<T, K, V>, x: int, p: Place<T>) {
    match p
    case Free => exists i :: 0 <= i < |s.free| && x in s.free[i]
    case OwnedBy(b) => b < |s.buckets| && s.buckets[b].info == x
    case HeldBy(t) => t in s.pcs && s.pcs[t].Holds(x)
    case Lost => x in s.lost
  }

  ghost predicate InOnePlace<T(!new), K, V>(s: State<T, K, V>, x: int) {
    && (exists p :: At(s, x, p))
    && (forall p, q :: At(s, x, p) && At(s, x, q) ==> p == q)
  }

  lemma PlacedAt<T(!new), K, V>(s: State<T, K, V>, place: seq<Place<T>>, x: int, p: Place<T>)
    requires Placed(s, place) && 0 <= x < |place|
    ensures At(s, x, p) <==> p == place[x]
  {
    match p
    case Free =>
      assert ListOk(s.free[ListOf(x)], ListOf(x), place);
      assert x in s.free[ListOf(x)] <==> FreeIn(place, x, ListOf(x));
    case OwnedBy(b) =>
    case HeldBy(t) =>
    case Lost =>
  }

  lemma PlacedInOne<T(!new), K, V>(s: State<T, K, V>, place: seq<Place<T>>, x: int)
    requires Placed(s, place) && 0 <= x < |place|
    ensures InOnePlace(s, x)
  {
    PlacedAt(s, place, x, place[x]);
    forall p, q | At(s, x, p) && At(s, x, q) ensures p == q {
      PlacedAt(s, place, x, p);
      PlacedAt(s, place, x, q);
    }
  }

  // ---- what holds in every reachable state ----

  /** check_correctness on one free list: in range, unused, no duplicate, and counted right. */
  ghost predicate ListChecks<T, K, V>(s: State<T, K, V>, i: nat)
    requires Shaped(s) && i < FREE_LISTS
  {
    && (forall x :: x in s.free[i] ==> 0 <= x < |s.owner| && s.owner[x] == -1)
    && NoRepeat(s.free[i]) && |s.free[i]| == s.sizes[i]
  }

  /** check_correctness on one bucket. */
  ghost predicate BucketChecks<T, K, V>(s: State<T, K, V>, b: nat)
    requires b < |s.buckets|
  {
    s.buckets[b].items != [] && s.buckets[b].info != -1 ==>
      0 <= s.buckets[b].info < |s.owner| && s.owner[s.buckets[b].info] == b
  }

  ghost predicate Safe<T(!new), K(!new), V(!new)>(hash: K -> nat, s: State<T, K, V>) {
    && Shaped(s)
    && (forall x :: 0 <= x < |s.owner| ==> InOnePlace(s, x))
    && (forall i, x :: 0 <= i < FREE_LISTS && x in s.free[i] ==> ListOf(x) == i)
    && (forall i :: 0 <= i < FREE_LISTS ==> ListChecks(s, i))
    && (forall b :: 0 <= b < |s.buckets| ==> BucketChecks(s, b) && BucketInOrder(hash, |s.buckets|, b, s.buckets[b]))
    && (forall b :: 0 <= b < |s.buckets| && s.buckets[b].info != -1 ==> ListOf(s.buckets[b].info) == ListOf(b))
  }

  lemma InvariantSafe<T(!new), K(!new), V(!new)>(hash: K -> nat, s: State<T, K, V>, place: seq<Place<T>>)
    requires Invariant(hash, s, place)
    ensures Safe(hash, s)
  {
    forall x | 0 <= x < |s.owner| ensures InOnePlace(s, x) {
      PlacedInOne(s, place, x);
    }
    forall i, x | 0 <= i < FREE_LISTS && x in s.free[i] ensures FreeIn(place, x, i) {
      assert ListOk(s.free[i], i, place);
    }
    forall i | 0 <= i < FREE_LISTS ensures ListChecks(s, i) {
      assert ListOk(s.free[i], i, place);
    }
  }

  /** Every state of every interleaving is safe. */
  lemma AlwaysSafe<T(!new), K(!new), V(!new)>(hash: K -> nat, steps: seq<Step<T, K, V>>, states: seq<State<T, K, V>>,
      n: nat)
    requires Behaviour(hash, steps, states) && Init(states[0]) && n < |states|
    ensures Safe(hash, states[n])
  {
    var places := RunInvariant(hash, steps, states);
    InvariantSafe(hash, states[n], places[n]);
  }

  /**
    The slot an insert pops is always in range and unused, so an exchange fails only for no
    reason, and its bucket is still empty: the assertion in insert holds.
   */
  lemma ClaimsAreFree<T(!new), K(!new), V(!new)>(hash: K -> nat, steps: seq<Step<T, K, V>>,
      states: seq<State<T, K, V>>, n: nat, t: T)
    requires Behaviour(hash, steps, states) && Init(states[0]) && n < |states|
    requires t in states[n].pcs && states[n].pcs[t].Inserting()
    ensures var s, pc := states[n], states[n].pcs[t];
      && pc.bucket < |s.buckets| && s.buckets[pc.bucket].items == [] && s.buckets[pc.bucket].writer == Some(t)
      && (pc.Claiming? ==> 0 <= pc.slot < |s.owner| && s.owner[pc.slot] == -1)
  {
    var places := RunInvariant(hash, steps, states);
    var s := states[n];
    assert Invariant(hash, s, places[n]);
    assert BucketInOrder(hash, |s.buckets|, s.pcs[t].bucket, s.buckets[s.pcs[t].bucket]);
  }

  // ---- a dropped slot never comes back ----

  lemma {:induction false} LostForever<T(!new), K(!new), V(!new)>(hash: K -> nat, states: seq<State<T, K, V>>,
      places: seq<seq<Place<T>>>, m: nat, n: nat, x: int)
    requires Traced(hash, states, places) && m <= n < |states| && x in states[m].lost
    ensures 0 <= x < |places[n]| && places[n][x] == Lost && |places[n]| == |places[m]|
    decreases n
  {
    if m == n {
      assert Invariant(hash, states[m], places[m]);
    } else {
      LostForever(hash, states, places, m, n - 1, x);
      assert MovedOn(places[n - 1], places[n - 1 + 1]);
    }
  }

  /**
    Each list serves its own buckets: once all its slots are dropped, an empty bucket of
    the list stays empty in every continuation, however many slots other lists have.
   */
  lemma StarvedList<T(!new), K(!new), V(!new)>(hash: K -> nat, steps: seq<Step<T, K, V>>, states: seq<State<T, K, V>>,
      m: nat, n: nat, b: nat)
    requires Behaviour(hash, steps, states) && Init(states[0]) && m <= n < |states| && b < |states[n].buckets|
    requires forall x :: 0 <= x < |states[m].owner| && ListOf(x) == ListOf(b) ==> x in states[m].lost
    ensures states[n].buckets[b].items == []
  {
    var places := RunInvariant(hash, steps, states);
    var s := states[n];
    assert Invariant(hash, s, places[n]) && Invariant(hash, states[m], places[m]);
    assert BucketInOrder(hash, |s.buckets|, b, s.buckets[b]);
    if s.buckets[b].info != -1 {
      SameSlots(hash, states, places, m, n);
      LostForever(hash, states, places, m, n, s.buckets[b].info);
    }
  }

  lemma {:induction false} SameSlots<T(!new), K(!new), V(!new)>(hash: K -> nat, states: seq<State<T, K, V>>,
      places: seq<seq<Place<T>>>, m: nat, n: nat)
    requires Traced(hash, states, places) && m <= n < |states|
    ensures |places[n]| == |places[m]|
    decreases n
  {
    if m < n {
      SameSlots(hash, states, places, m, n - 1);
      assert MovedOn(places[n - 1], places[n - 1 + 1]);
    }
  }

  // ---- what a reader finds ----

  ghost function Effects<T(!new), K(!new), V(!new)>(hash: K -> nat, steps: seq<Step<T, K, V>>,
      states: seq<State<T, K, V>>): (e: seq<Effect<K, V>>)
    requires Behaviour(hash, steps, states)
    ensures |e| == |steps|
    ensures forall n :: 0 <= n < |steps| ==>
      Next(hash, states[n], steps[n], states[n + 1]) && e[n] == EffectOf(hash, states[n], steps[n])
  {
    seq(|steps|, n requires 0 <= n < |steps| => assert Next(hash, states[n], steps[n], states[n + 1]);
      EffectOf(hash, states[n], steps[n]))
  }

  /** The write of value to key at time m is the last thing that touched the key. */
  ghost predicate LatestWrite<K, V>(hash: K -> nat, buckets: nat, effects: seq<Effect<K, V>>, m: nat, n: nat, key: K,
      value: V)
    requires buckets > 0 && n <= |effects|
  {
    && m < n && effects[m] == Wrote(key, value)
    && forall j :: m < j < n ==> !Touches(hash, buckets, effects[j], key)
  }

  ghost predicate HasLatestWrite<K, V>(hash: K -> nat, buckets: nat, effects: seq<Effect<K, V>>, n: nat, key: K,
      value: V)
    requires buckets > 0 && n <= |effects|
  {
    exists m: nat :: LatestWrite(hash, buckets, effects, m, n, key, value)
  }

  lemma LatestStep<K, V>(hash: K -> nat, buckets: nat, effects: seq<Effect<K, V>>, n: nat, key: K, value: V)
    requires buckets > 0 && 0 < n <= |effects|
    ensures HasLatestWrite(hash, buckets, effects, n, key, value) <==>
      if Touches(hash, buckets, effects[n - 1], key) then effects[n - 1] == Wrote(key, value)
      else HasLatestWrite(hash, buckets, effects, n - 1, key, value)
  {
    if HasLatestWrite(hash, buckets, effects, n, key, value) {
      var m: nat :| LatestWrite(hash, buckets, effects, m, n, key, value);
      if m < n - 1 {
        assert LatestWrite(hash, buckets, effects, m, n - 1, key, value);
      }
    }
    if HasLatestWrite(hash, buckets, effects, n - 1, key, value) && !Touches(hash, buckets, effects[n - 1], key) {
      var m: nat :| LatestWrite(hash, buckets, effects, m, n - 1, key, value);
      assert LatestWrite(hash, buckets, effects, m, n, key, value);
    }
    if effects[n - 1] == Wrote(key, value) {
      assert LatestWrite(hash, buckets, effects, n - 1, n, key, value);
    }
  }

  lemma {:induction false} AnswerIsLatest<T(!new), K(!new), V(!new)>(hash: K -> nat, steps: seq<Step<T, K, V>>,
      states: seq<State<T, K, V>>, places: seq<seq<Place<T>>>, n: nat, key: K, value: V)
    requires Behaviour(hash, steps, states) && Init(states[0]) && Traced(hash, states, places) && n < |states|
    ensures 0 < |states[0].buckets| == |states[n].buckets|
    ensures Answer(hash, states[n], key) == Some(value) <==>
      HasLatestWrite(hash, |states[0].buckets|, Effects(hash, steps, states), n, key, value)
    decreases n
  {
    if n > 0 {
      AnswerIsLatest(hash, steps, states, places, n - 1, key, value);
      assert Next(hash, states[n - 1], steps[n - 1], states[n - 1 + 1]) &&
        Invariant(hash, states[n - 1], places[n - 1]);
      StepMeans(hash, states[n - 1], steps[n - 1], states[n], places[n - 1], key);
      LatestStep(hash, |states[0].buckets|, Effects(hash, steps, states), n, key, value);
    }
  }

  /**
    In every interleaving, get finds a value exactly when an effective insert wrote it and
    no insert, remove, clear or wash-out has touched the key since.
   */
  lemma GetFindsLatest<T(!new), K(!new), V(!new)>(hash: K -> nat, steps: seq<Step<T, K, V>>,
      states: seq<State<T, K, V>>, n: nat, key: K, value: V)
    requires Behaviour(hash, steps, states) && Init(states[0]) && n < |states|
    ensures 0 < |states[0].buckets| == |states[n].buckets|
    ensures Answer(hash, states[n], key) == Some(value) <==>
      HasLatestWrite(hash, |states[0].buckets|, Effects(hash, steps, states), n, key, value)
  {
    var places := RunInvariant(hash, steps, states);
    AnswerIsLatest(hash, steps, states, places, n, key, value);
  }
}
