/** One step of the database at a time, on the list of disk partitions and the memory partition. */
module HdbSteps {
  import opened HdbTags
  import opened HdbParts
  import opened HdbLevels
  import opened HdbMerging
  import opened HdbValues
  import opened HdbPartitions

  /** Without optimize the levels are the digits of the number of flushes. */
  ghost predicate Counted<K, V>(M: nat, disk: seq<Partition<K, V>>, flushes: nat, optimized: bool) {
    optimized || Weight(Levels(disk), M) == flushes
  }

  /** Between operations. */
  ghost predicate Settled<K, V>(base: string, M: nat, disk: seq<Partition<K, V>>, flushes: nat, optimized: bool) {
    M >= 2 && Named(base, disk) && Canonical(Levels(disk), M) && Counted(M, disk, flushes, optimized)
  }

  /** While merging. */
  ghost predicate Unsettled<K, V>(base: string, M: nat, disk: seq<Partition<K, V>>, flushes: nat, optimized: bool) {
    M >= 2 && Shape(base, M, disk) && Counted(M, disk, flushes, optimized)
  }

  ghost predicate PlainDisk<K(!new), V>(sum: Sum<V>, regime: K -> Regime, disk: seq<Partition<K, V>>, mem: Sdb<K, V>,
      model: map<K, V>) {
    PlainMap(sum, regime, Sdbs(disk), mem, model)
  }

  ghost function DiskValue<K, V>(sum: Sum<V>, disk: seq<Partition<K, V>>, mem: Sdb<K, V>, key: K): Reading<V> {
    ValueOf(sum, Sdbs(disk), mem, key)
  }

  ghost predicate SameReadings<K(!new), V>(sum: Sum<V>, disk: seq<Partition<K, V>>, mem: Sdb<K, V>,
      disk': seq<Partition<K, V>>, mem': Sdb<K, V>) {
    forall k :: DiskValue(sum, disk', mem', k) == DiskValue(sum, disk, mem, k)
  }

  // ---- flush ----

  lemma FlushStep<K(!new), V(!new)>(base: string, M: nat, disk: seq<Partition<K, V>>, mem: Sdb<K, V>, flushes: nat,
      optimized: bool)
    requires Settled(base, M, disk, flushes, optimized)
    ensures Unsettled(base, M, Flushed(base, disk, mem), flushes + 1, optimized)
  {
    FlushedShape(base, M, disk, mem);
  }

  lemma FlushReadings<K(!new), V(!new)>(base: string, sum: Sum<V>, regime: K -> Regime, disk: seq<Partition<K, V>>,
      mem: Sdb<K, V>, model: map<K, V>)
    ensures SameReadings(sum, disk, mem, Flushed(base, disk, mem), map[])
    ensures PlainDisk(sum, regime, disk, mem, model) ==> PlainDisk(sum, regime, Flushed(base, disk, mem), map[], model)
  {
    PlainFlush(sum, regime, Sdbs(disk), mem, model);
    assert Sdbs(Flushed(base, disk, mem)) == Sdbs(disk) + [mem];
  }

  // ---- merge ----

  /** The newest partitions are of one level. */
  ghost predicate IsMergable<K, V>(M: nat, disk: seq<Partition<K, V>>) {
    2 <= M <= |disk| && disk[|disk| - M].level == disk[|disk| - 1].level
  }

  function Newest<K, V>(M: nat, disk: seq<Partition<K, V>>): seq<Sdb<K, V>>
    requires M <= |disk|
  {
    Sdbs(disk[|disk| - M..])
  }

  /** A key with mergeable tags in the newest partitions keeps its value. */
  ghost predicate MergeableKept<K(!new), V>(sum: Sum<V>, M: nat, disk: seq<Partition<K, V>>, mem: Sdb<K, V>,
      disk': seq<Partition<K, V>>)
    requires M <= |disk|
  {
    forall k :: Mergeable(TagsOf(Newest(M, disk), k)) ==> DiskValue(sum, disk', mem, k) == DiskValue(sum, disk, mem, k)
  }

  lemma MergeStep<K(!new), V(!new)>(base: string, M: nat, disk: seq<Partition<K, V>>, dst: Sdb<K, V>, flushes: nat,
      optimized: bool)
    requires Unsettled(base, M, disk, flushes, optimized) && IsMergable(M, disk)
    ensures Unsettled(base, M, Merged(M, disk, dst), flushes, optimized)
  {
    MergedShape(base, M, disk, dst);
  }

  lemma MergeReadings<K(!new), V(!new)>(sum: Sum<V>, M: nat, disk: seq<Partition<K, V>>, mem: Sdb<K, V>, dst: Sdb<K, V>)
    requires Monoid(sum) && 2 <= M <= |disk| && IsMerged(sum, Newest(M, disk), false, dst)
    ensures MergeableKept(sum, M, disk, mem, Merged(M, disk, dst))
  {
    var older, newest := Sdbs(disk[..|disk| - M]), Newest(M, disk);
    MergedParts(M, disk, dst);
    MergeValues(sum, older, newest, dst, mem);
    forall k | Mergeable(TagsOf(newest, k))
      ensures DiskValue(sum, Merged(M, disk, dst), mem, k) == DiskValue(sum, disk, mem, k) {
      assert ValueOf(sum, older + [dst], mem, k) == ValueOf(sum, older + newest, mem, k);
    }
  }

  lemma PlainMergeStep<K(!new), V(!new)>(sum: Sum<V>, regime: K -> Regime, M: nat, disk: seq<Partition<K, V>>,
      mem: Sdb<K, V>, dst: Sdb<K, V>, model: map<K, V>)
    requires Monoid(sum) && 2 <= M <= |disk| && PlainDisk(sum, regime, disk, mem, model)
    ensures Strict(regime) ==> NoConflicts(Newest(M, disk))
    ensures IsMerged(sum, Newest(M, disk), false, dst) ==> PlainDisk(sum, regime, Merged(M, disk, dst), mem, model)
  {
    var older := Sdbs(disk[..|disk| - M]);
    MergedParts(M, disk, dst);
    PlainCombines(sum, regime, older, Newest(M, disk));
    NoConflictsCombine(sum, Newest(M, disk));
    if IsMerged(sum, Newest(M, disk), false, dst) {
      PlainMerge(sum, regime, older, Newest(M, disk), dst, mem, model);
    }
  }

  lemma SettleStep<K(!new), V(!new)>(base: string, M: nat, disk: seq<Partition<K, V>>, flushes: nat, optimized: bool)
    requires Unsettled(base, M, disk, flushes, optimized) && !IsMergable(M, disk)
    ensures Settled(base, M, disk, flushes, optimized)
  {
    SettledShape(base, M, disk);
  }

  // ---- optimize ----

  lemma OptimizeStep<K(!new), V(!new)>(base: string, M: nat, disk: seq<Partition<K, V>>, dst: Sdb<K, V>, flushes: nat)
    requires M >= 2 && disk != [] && Named(base, disk)
    ensures Settled(base, M, Optimized(disk, dst), flushes, true)
  {
    OptimizedShape(base, M, disk, dst);
  }

  lemma OptimizeReadings<K(!new), V(!new)>(sum: Sum<V>, regime: K -> Regime, disk: seq<Partition<K, V>>,
      dst: Sdb<K, V>, model: map<K, V>)
    requires Monoid(sum) && disk != [] && IsMerged(sum, Sdbs(disk), true, dst)
    ensures SameReadings(sum, disk, map[], Optimized(disk, dst), map[])
    ensures PlainDisk(sum, regime, disk, map[], model) ==> PlainDisk(sum, regime, Optimized(disk, dst), map[], model)
  {
    PlainOptimize(sum, regime, Sdbs(disk), dst, model);
    assert Sdbs(Optimized(disk, dst)) == [dst];
  }

  lemma PlainNoConflicts<K(!new), V(!new)>(sum: Sum<V>, regime: K -> Regime, disk: seq<Partition<K, V>>, mem: Sdb<K, V>,
      model: map<K, V>)
    requires Monoid(sum) && Strict(regime) && PlainDisk(sum, regime, disk, mem, model)
    ensures NoConflicts(Sdbs(disk))
  {
    forall k ensures Combines(sum, Sdbs(disk), k) {
      TameCombines(sum, regime, Sdbs(disk), k);
    }
    NoConflictsCombine(sum, Sdbs(disk));
  }

  // ---- writing to memory ----

  /** Only the key's reading changes, to the given one. */
  ghost predicate Wrote<K(!new), V>(sum: Sum<V>, disk: seq<Partition<K, V>>, mem: Sdb<K, V>, mem': Sdb<K, V>, key: K,
      r: Reading<V>) {
    && DiskValue(sum, disk, mem', key) == r
    && forall k :: k != key ==> DiskValue(sum, disk, mem', k) == DiskValue(sum, disk, mem, k)
  }

  ghost function ModelWith<K, V>(model: map<K, V>, key: K, r: Reading<V>): map<K, V> {
    if r.found then model[key := r.acc] else model - {key}
  }

  /** The map after newvalue := oldvalue + delta. */
  ghost function ModelPlus<K, V>(sum: Sum<V>, model: map<K, V>, key: K, delta: V): map<K, V> {
    model[key := sum.add(if key in model then model[key] else sum.zero, delta)]
  }

  lemma PlainWrite<K(!new), V(!new)>(sum: Sum<V>, regime: K -> Regime, disk: seq<Partition<K, V>>, mem: Sdb<K, V>,
      model: map<K, V>, key: K, tag: Tag<V>, r: Reading<V>)
    requires PlainDisk(sum, regime, disk, mem, model) && Fits(regime(key), tag) && Proper(sum, r)
    requires Wrote(sum, disk, mem, mem[key := tag], key, r)
    ensures PlainDisk(sum, regime, disk, mem[key := tag], ModelWith(model, key, r))
  {
    var mem', model' := mem[key := tag], ModelWith(model, key, r);
    forall k | regime(k) != Mixed ensures ValueOf(sum, Sdbs(disk), mem', k) == ModelReading(sum, model', k) {
      assert DiskValue(sum, disk, mem', k) == if k == key then r else DiskValue(sum, disk, mem, k);
      assert ValueOf(sum, Sdbs(disk), mem, k) == ModelReading(sum, model, k);
    }
  }

  /** What happens to a key used in mixed ways does not concern the others. */
  lemma PlainMixed<K(!new), V(!new)>(sum: Sum<V>, regime: K -> Regime, disk: seq<Partition<K, V>>, mem: Sdb<K, V>,
      model: map<K, V>, key: K, tag: Tag<V>)
    requires PlainDisk(sum, regime, disk, mem, model) && regime(key) == Mixed
    ensures PlainDisk(sum, regime, disk, mem[key := tag], model)
  {
    forall k | regime(k) != Mixed ensures ValueOf(sum, Sdbs(disk), mem[key := tag], k) == ModelReading(sum, model, k) {
      assert ValueOf(sum, Sdbs(disk), mem, k) == ModelReading(sum, model, k);
    }
  }

  lemma WriteTag<K(!new), V(!new)>(sum: Sum<V>, disk: seq<Partition<K, V>>, mem: Sdb<K, V>, key: K, tag: Tag<V>)
    ensures Wrote(sum, disk, mem, mem[key := tag], key, Read(sum, Below(sum, Sdbs(disk), key), tag))
  {
  }

  /** The tag that delta writes; none when it throws. */
  function DeltaTag<K, V>(sum: Sum<V>, mem: Sdb<K, V>, key: K, delta: V): Tag<V>
    requires !(key in mem && mem[key].Insert?)
  {
    if key !in mem then Delta(delta)
    else if mem[key].Delta? then Delta(sum.add(mem[key].value, delta))
    else if mem[key].Update? then Update(sum.add(mem[key].value, delta))
    else Update(delta)
  }

  /** newvalue := oldvalue + delta, from ValueType() for an absent key. */
  lemma WriteDelta<K(!new), V(!new)>(sum: Sum<V>, disk: seq<Partition<K, V>>, mem: Sdb<K, V>, key: K, delta: V)
    requires Monoid(sum) && !(key in mem && mem[key].Insert?)
    ensures Wrote(sum, disk, mem, mem[key := DeltaTag(sum, mem, key, delta)], key,
      Reading(true, sum.add(DiskValue(sum, disk, mem, key).acc, delta)))
  {
    WriteTag(sum, disk, mem, key, DeltaTag(sum, mem, key, delta));
    if key in mem && mem[key].Delta? {
      assert Associates(sum, Below(sum, Sdbs(disk), key).acc, mem[key].value, delta);
    }
  }

  /** What delta does in memory: it throws exactly on an insert tag there, and otherwise adds. */
  ghost predicate DeltaWrote<K(!new), V>(sum: Sum<V>, disk: seq<Partition<K, V>>, mem: Sdb<K, V>, mem': Sdb<K, V>,
      key: K, delta: V, ok: bool) {
    && (ok <==> !(key in mem && mem[key].Insert?))
    && (ok ==> mem' == mem[key := DeltaTag(sum, mem, key, delta)])
    && (ok ==> Wrote(sum, disk, mem, mem', key, Reading(true, sum.add(DiskValue(sum, disk, mem, key).acc, delta))))
    && (!ok ==> mem' == mem)
  }

  /** insertValue writes only over nothing and over a deletion. */
  function InsertedMem<K, V>(mem: Sdb<K, V>, key: K, value: V): Sdb<K, V> {
    if key !in mem || mem[key].Delete? then mem[key := Insert(value)] else mem
  }

  /** What insertValue is documented to do: leave an existing key alone. */
  ghost function InsertReading<V>(r: Reading<V>, value: V): Reading<V> {
    if r.found then r else Reading(true, value)
  }

  /** The deletion in memory is all that hides another value on disk. */
  ghost predicate Resurrects<K, V>(sum: Sum<V>, disk: seq<Partition<K, V>>, mem: Sdb<K, V>, key: K, value: V) {
    var below := Below(sum, Sdbs(disk), key);
    key in mem && mem[key].Delete? && below.found && below.acc != value
  }

  /** What insertValue does in memory: what it is documented to do, exactly when it does not resurrect. */
  ghost predicate InsertWrote<K(!new), V>(sum: Sum<V>, disk: seq<Partition<K, V>>, mem: Sdb<K, V>, mem': Sdb<K, V>,
      key: K, value: V) {
    && DiskValue(sum, disk, mem', key).found
    && (Wrote(sum, disk, mem, mem', key, InsertReading(DiskValue(sum, disk, mem, key), value)) <==>
      !Resurrects(sum, disk, mem, key, value))
  }

  lemma InsertInto<K(!new), V(!new)>(sum: Sum<V>, disk: seq<Partition<K, V>>, mem: Sdb<K, V>, key: K, value: V)
    ensures InsertWrote(sum, disk, mem, InsertedMem(mem, key, value), key, value)
  {
    WriteInsert(sum, disk, mem, key, value);
  }

  /** The map after inserting what is not there. */
  ghost function ModelInsert<K, V>(model: map<K, V>, key: K, value: V): map<K, V> {
    if key in model then model else model[key := value]
  }

  /** Inserting a key that is never deleted. */
  lemma PlainInsert<K(!new), V(!new)>(sum: Sum<V>, regime: K -> Regime, disk: seq<Partition<K, V>>, mem: Sdb<K, V>,
      model: map<K, V>, key: K, value: V)
    requires PlainDisk(sum, regime, disk, mem, model) && regime(key) == Undeleted
    ensures PlainDisk(sum, regime, disk, InsertedMem(mem, key, value), ModelInsert(model, key, value))
  {
    var mem', model' := InsertedMem(mem, key, value), ModelInsert(model, key, value);
    assert key in mem ==> Fits(regime(key), mem[key]);
    WriteInsert(sum, disk, mem, key, value);
    forall k | regime(k) != Mixed ensures ValueOf(sum, Sdbs(disk), mem', k) == ModelReading(sum, model', k) {
      assert ValueOf(sum, Sdbs(disk), mem, k) == ModelReading(sum, model, k);
      assert k != key ==> DiskValue(sum, disk, mem', k) == DiskValue(sum, disk, mem, k);
      assert k == key ==> DiskValue(sum, disk, mem', k) == InsertReading(DiskValue(sum, disk, mem, key), value);
    }
  }

  /** insertValue does what it is documented to do exactly when it does not resurrect. */
  lemma WriteInsert<K(!new), V(!new)>(sum: Sum<V>, disk: seq<Partition<K, V>>, mem: Sdb<K, V>, key: K, value: V)
    ensures Wrote(sum, disk, mem, InsertedMem(mem, key, value), key,
      InsertReading(DiskValue(sum, disk, mem, key), value))
      <==> !Resurrects(sum, disk, mem, key, value)
  {
    WriteTag(sum, disk, mem, key, Insert(value));
  }

  /** Update, del, insertValue: the old value of the disk is back. */
  lemma InsertAfterDelete<K(!new), V(!new)>(sum: Sum<V>, name: string, key: K, v: V, w: V)
    requires Monoid(sum) && v != w
    ensures var disk, mem := [Partition(name, 0, map[key := Update(v)])], map[key := Delete];
      && DiskValue(sum, disk, mem, key) == Absent(sum)
      && DiskValue(sum, disk, InsertedMem(mem, key, w), key) == Reading(true, v)
  {
    var sdb: Sdb<K, V> := map[key := Update(v)];
    var disk := [Partition(name, 0, sdb)];
    assert Sdbs(disk) == [] + [sdb];
    BelowNext(sum, [], sdb, key);
  }
}
