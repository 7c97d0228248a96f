/** HugeDB: a log-structured store of tagged records, single-threaded. */
module HugeDBs {
  import opened Wrappers
  import opened HdbTags
  import opened HdbParts
  import opened HdbLevels
  import opened HdbMerging
  import opened HdbValues
  import opened HdbPartitions
  import opened HdbSteps
  import opened HdbCascade

  /** Threw is an exception about delta after insert. */
  datatype Status = Ok | Threw

  class HugeDB<K(==, !new), V(==, !new)> {
    const base: string
    const less: (K, K) -> bool
    const sum: Sum<V>
    const noKey: K
    const mergeFactor: nat
    const cachedRecords: nat
    var disk: seq<Partition<K, V>>
    var mem: Sdb<K, V>

    ghost const regime: K -> Regime
    ghost var flushes: nat
    ghost var optimized: bool
    ghost var model: map<K, V>

    ghost predicate Configured() {
      cachedRecords >= 1 && mergeFactor >= 2 && Total(less) && Monoid(sum)
    }

    /** Every partition has the name it is reopened under, and the levels are the digits of the flush count. */
    ghost predicate Valid()
      reads this`disk, this`flushes, this`optimized
    {
      Configured() && Settled(base, mergeFactor, disk, flushes, optimized)
    }

    ghost predicate Merging()
      reads this`disk, this`flushes, this`optimized
    {
      Configured() && Unsettled(base, mergeFactor, disk, flushes, optimized)
    }

    /** Every key has tags of its regime only, and reads as in the plain map model unless it is used in mixed ways. */
    ghost predicate Plain()
      reads this
    {
      PlainDisk(sum, regime, disk, mem, model)
    }

    ghost function Value(key: K): Reading<V>
      reads this
    {
      DiskValue(sum, disk, mem, key)
    }

    constructor (base: string, less: (K, K) -> bool, sum: Sum<V>, noKey: K, mergeFactor: nat, cachedRecords: nat,
        ghost regime: K -> Regime)
      requires mergeFactor >= 2 && cachedRecords >= 1 && Total(less) && Monoid(sum)
      ensures Valid() && Plain() && disk == [] && mem == map[] && model == map[] && this.regime == regime && !optimized
    {
      this.base, this.less, this.sum, this.noKey := base, less, sum, noKey;
      this.mergeFactor, this.cachedRecords, this.regime := mergeFactor, cachedRecords, regime;
      disk, mem, flushes, optimized, model := [], map[], 0, false, map[];
    }

    // ---- reading ----

    method GetValue(key: K) returns (found: bool, value: V)
      ensures Reading(found, value) == Value(key)
      ensures Plain() && regime(key) != Mixed ==> (found <==> key in model) && (found ==> value == model[key])
    {
      var tagList: seq<Tag<V>> := [];
      for i := 0 to |disk|
        invariant tagList == TagsOf(Sdbs(disk)[..i], key)
      {
        TagsNext(Sdbs(disk), i, key);
        if key in disk[i].sdb {
          tagList := tagList + [disk[i].sdb[key]];
        }
      }
      assert Sdbs(disk)[..|disk|] == Sdbs(disk);
      if key in mem {
        FoldNext(sum, Absent(sum), tagList, mem[key]);
        tagList := tagList + [mem[key]];
      }
      found, value := FoldTags(tagList);
    }

    method FoldTags(tagList: seq<Tag<V>>) returns (found: bool, accumulator: V)
      ensures Reading(found, accumulator) == Fold(sum, Absent(sum), tagList)
    {
      found, accumulator := false, sum.zero;
      for i := 0 to |tagList|
        invariant Reading(found, accumulator) == Fold(sum, Absent(sum), tagList[..i])
      {
        FoldNext(sum, Absent(sum), tagList[..i], tagList[i]);
        assert tagList[..i + 1] == tagList[..i] + [tagList[i]];
        match tagList[i]
        case Insert(v) =>
          if !found {
            found, accumulator := true, v;
          }
        case Update(v) => found, accumulator := true, v;
        case Delta(v) => found, accumulator := true, sum.add(accumulator, v);
        case Delete => found, accumulator := false, sum.zero;
      }
      assert tagList[..|tagList|] == tagList;
    }

    // ---- flushing and merging ----

    method FlushRamSdb()
      requires Valid()
      modifies this`disk, this`mem, this`flushes
      ensures Merging() && mem == map[] && disk == Flushed(base, old(disk), old(mem)) && flushes == old(flushes) + 1
      ensures SameReadings(sum, old(disk), old(mem), disk, mem)
      ensures old(Plain()) ==> Plain()
    {
      FlushStep(base, mergeFactor, disk, mem, flushes, optimized);
      FlushReadings(base, sum, regime, disk, mem, model);
      disk, mem := Flushed(base, disk, mem), map[];
      flushes := flushes + 1;
    }

    /** The mergeFactor newest partitions are of one level. */
    method Mergable() returns (test: bool)
      requires Merging()
      ensures test <==> IsMergable(mergeFactor, disk)
    {
      test := NewestAlike(Levels(disk), mergeFactor);
    }

    /** Replaces the newest partitions by one; a key with mergeable tags there keeps its value. */
    method Merge() returns (status: Status)
      requires Merging() && IsMergable(mergeFactor, disk)
      modifies this`disk
      ensures Merging()
      ensures status == Ok <==> NoConflicts(Newest(mergeFactor, old(disk)))
      ensures status == Threw ==> disk == old(disk)
      ensures status == Ok ==> disk == Merged(mergeFactor, old(disk), MergedTags(sum, Newest(mergeFactor, old(disk))))
      ensures status == Ok ==> |disk| < |old(disk)| && MergeableKept(sum, mergeFactor, old(disk), mem, disk)
      ensures old(Plain()) ==> Plain() && (Strict(regime) ==> status == Ok)
    {
      var ok, dst, visited := Drain(less, sum, Newest(mergeFactor, disk), noKey, false);
      if Plain() {
        PlainMergeStep(sum, regime, mergeFactor, disk, mem, dst, model);
      }
      if !ok {
        return Threw;
      }
      MergedUnique(sum, Newest(mergeFactor, disk), dst);
      Replace(dst);
      return Ok;
    }

    method Replace(dst: Sdb<K, V>)
      requires Merging() && IsMergable(mergeFactor, disk) && IsMerged(sum, Newest(mergeFactor, disk), false, dst)
      modifies this`disk
      ensures Merging() && disk == Merged(mergeFactor, old(disk), dst)
      ensures MergeableKept(sum, mergeFactor, old(disk), mem, disk)
    {
      ghost var was := disk;
      disk := Merged(mergeFactor, disk, dst);
      MergeStep(base, mergeFactor, was, dst, flushes, optimized);
      MergeReadings(sum, mergeFactor, was, mem, dst);
    }

    /** The partitions that an operation then works on; None when a merge throws. */
    ghost function Prepared(d: seq<Partition<K, V>>, m: Sdb<K, V>): Option<seq<Partition<K, V>>> {
      Ready(base, sum, mergeFactor, cachedRecords, d, m)
    }

    method TryToMerge() returns (status: Status)
      requires Valid()
      modifies this`disk, this`mem, this`flushes
      ensures status == Ok <==> Prepared(old(disk), old(mem)).Some?
      ensures status == Ok ==> Valid() && disk == Prepared(old(disk), old(mem)).value
      ensures mem == Room(cachedRecords, old(mem)) && |mem| < cachedRecords
      ensures |old(mem)| < cachedRecords ==> status == Ok && disk == old(disk) && mem == old(mem)
      ensures |old(mem)| >= cachedRecords ==> mem == map[]
      ensures flushes == old(flushes) + if |old(mem)| < cachedRecords then 0 else 1
      ensures old(Plain()) ==> Plain() && (Strict(regime) ==> status == Ok)
    {
      status := Ok;
      if cachedRecords <= |mem| {
        FlushRamSdb();
        status := MergeAll();
      }
    }

    /** One merge of the cascade. */
    method MergeNext() returns (status: Status)
      requires Merging() && IsMergable(mergeFactor, disk)
      modifies this`disk
      ensures Merging()
      ensures status == Ok ==>
        |disk| < |old(disk)| && Cascade(sum, mergeFactor, disk) == Cascade(sum, mergeFactor, old(disk))
      ensures status == Threw ==> Cascade(sum, mergeFactor, old(disk)) == None
      ensures old(Plain()) ==> Plain() && (Strict(regime) ==> status == Ok)
    {
      CascadeNext(sum, mergeFactor, disk);
      status := Merge();
    }

    method MergeAll() returns (status: Status)
      requires Merging()
      modifies this`disk
      ensures status == Ok <==> Cascade(sum, mergeFactor, old(disk)).Some?
      ensures status == Ok ==> Valid() && disk == Cascade(sum, mergeFactor, old(disk)).value
      ensures old(Plain()) ==> Plain() && (Strict(regime) ==> status == Ok)
    {
      status := Ok;
      var test := Mergable();
      while test
        invariant Merging() && (test <==> IsMergable(mergeFactor, disk)) && (old(Plain()) ==> Plain())
        invariant Cascade(sum, mergeFactor, disk) == Cascade(sum, mergeFactor, old(disk))
        decreases |disk|
      {
        status := MergeNext();
        if status == Threw {
          return;
        }
        test := Mergable();
      }
      CascadeNext(sum, mergeFactor, disk);
      SettleStep(base, mergeFactor, disk, flushes, optimized);
      status := Ok;
    }

    /** Making room keeps the reading of every key that has no deletion. */
    lemma PreparedKeeps(key: K)
      requires Valid() && Prepared(disk, mem).Some? && NoDeletion(disk, key) && !(key in mem && mem[key].Delete?)
      ensures DiskValue(sum, Prepared(disk, mem).value, Room(cachedRecords, mem), key) == Value(key)
    {
      ReadyKeeps(base, sum, mergeFactor, cachedRecords, disk, mem, key);
    }

    /** Merges everything into one partition without deletions; no key changes its value. */
    method Optimize() returns (status: Status)
      requires Valid()
      modifies this`disk, this`mem, this`flushes, this`optimized
      ensures var parts := if old(mem) == map[] then old(disk) else Flushed(base, old(disk), old(mem));
        status == Ok <==> |parts| < 2 || NoConflicts(Sdbs(parts))
      ensures status == Ok ==> Valid() && mem == map[] && |disk| <= 1
      ensures SameReadings(sum, old(disk), old(mem), disk, mem)
      ensures old(Plain()) ==> Plain() && (Strict(regime) ==> status == Ok)
    {
      if mem != map[] {
        FlushRamSdb();
      }
      status := OptimizeDisk();
    }

    method OptimizeDisk() returns (status: Status)
      requires Merging() && mem == map[]
      modifies this`disk, this`optimized
      ensures |old(disk)| < 2 ==> status == Ok && disk == old(disk)
      ensures |old(disk)| >= 2 ==> (status == Ok <==> NoConflicts(Sdbs(old(disk))))
      ensures status == Ok ==> Valid() && |disk| <= 1
      ensures SameReadings(sum, old(disk), mem, disk, mem)
      ensures old(Plain()) ==> Plain() && (Strict(regime) ==> status == Ok)
    {
      if |disk| < 2 {
        SettleStep(base, mergeFactor, disk, flushes, optimized);
        return Ok;
      }
      var ok, dst, visited := Drain(less, sum, Sdbs(disk), noKey, true);
      if Plain() && Strict(regime) {
        PlainNoConflicts(sum, regime, disk, mem, model);
      }
      if !ok {
        return Threw;
      }
      OptimizeStep(base, mergeFactor, disk, dst, flushes);
      OptimizeReadings(sum, regime, disk, dst, model);
      disk, optimized := Optimized(disk, dst), true;
      return Ok;
    }

    // ---- writing ----

    /** Writes a tag into memory, by which the key comes to read as r. */
    method Write(key: K, tag: Tag<V>, ghost r: Reading<V>)
      requires Wrote(sum, disk, mem, mem[key := tag], key, r) && Proper(sum, r)
      modifies this`mem, this`model
      ensures mem == old(mem)[key := tag] && Wrote(sum, disk, old(mem), mem, key, r)
      ensures old(Plain()) && Fits(regime(key), tag) ==> Plain() && model == ModelWith(old(model), key, r)
    {
      if Plain() && Fits(regime(key), tag) {
        PlainWrite(sum, regime, disk, mem, model, key, tag, r);
        model := ModelWith(model, key, r);
      }
      mem := mem[key := tag];
    }

    method Update(key: K, value: V) returns (status: Status)
      requires Valid()
      modifies this`disk, this`mem, this`flushes, this`model
      ensures status == Ok <==> Prepared(old(disk), old(mem)).Some?
      ensures status == Ok ==> Valid() && disk == Prepared(old(disk), old(mem)).value
      ensures status == Ok ==> mem == Room(cachedRecords, old(mem))[key := Tag<V>.Update(value)]
      ensures status == Ok ==> Wrote(sum, disk, Room(cachedRecords, old(mem)), mem, key, Reading(true, value))
      ensures old(Plain()) ==>
        Plain() && (Strict(regime) ==> status == Ok) && (status == Ok ==> model == old(model)[key := value])
    {
      status := TryToMerge();
      if status == Ok {
        WriteTag(sum, disk, mem, key, Tag<V>.Update(value));
        Write(key, Tag<V>.Update(value), Reading(true, value));
      }
    }

    method Del(key: K) returns (status: Status)
      requires Valid()
      modifies this`disk, this`mem, this`flushes, this`model
      ensures status == Ok <==> Prepared(old(disk), old(mem)).Some?
      ensures status == Ok ==> Valid() && disk == Prepared(old(disk), old(mem)).value
      ensures status == Ok ==> mem == Room(cachedRecords, old(mem))[key := Tag<V>.Delete]
      ensures status == Ok ==> Wrote(sum, disk, Room(cachedRecords, old(mem)), mem, key, Absent(sum))
      ensures old(Plain()) && Fits(regime(key), Tag<V>.Delete) ==>
        Plain() && (Strict(regime) ==> status == Ok) && (status == Ok ==> model == old(model) - {key})
    {
      status := TryToMerge();
      if status == Ok {
        WriteTag(sum, disk, mem, key, Tag<V>.Delete);
        Write(key, Tag<V>.Delete, Absent(sum));
      }
    }

    /**
      The sum of the value, or of zero without one, and the delta. The exception about an insert
      tag in memory leaves everything as it was.
     */
    method AddDelta(key: K, delta: V) returns (status: Status)
      requires Valid()
      modifies this`disk, this`mem, this`flushes, this`model
      ensures Prepared(old(disk), old(mem)).Some? ==> Valid() && disk == Prepared(old(disk), old(mem)).value
      ensures Prepared(old(disk), old(mem)).Some? ==>
        DeltaWrote(sum, disk, Room(cachedRecords, old(mem)), mem, key, delta, status == Ok)
      ensures Prepared(old(disk), old(mem)).None? ==> status == Threw
      ensures old(Plain()) && (regime(key) == UpdateDelta || regime(key) == Undeleted) ==>
        Plain() && (Strict(regime) ==> status == Ok) &&
          (status == Ok ==> model == ModelPlus(sum, old(model), key, delta))
      ensures old(Plain()) && regime(key) == Mixed ==> Plain()
    {
      status := TryToMerge();
      if status == Ok {
        status := DeltaInMemory(key, delta);
      }
    }

    method DeltaInMemory(key: K, delta: V) returns (status: Status)
      requires Valid()
      modifies this`mem, this`model
      ensures Valid()
      ensures DeltaWrote(sum, disk, old(mem), mem, key, delta, status == Ok)
      ensures old(Plain()) && (regime(key) == UpdateDelta || regime(key) == Undeleted) ==>
        Plain() && (regime(key) == UpdateDelta ==> status == Ok) &&
          (status == Ok ==> model == ModelPlus(sum, old(model), key, delta))
      ensures old(Plain()) && regime(key) == Mixed ==> Plain()
    {
      if Plain() && regime(key) != Mixed {
        assert Value(key) == ModelReading(sum, model, key);
        assert key in mem ==> Fits(regime(key), mem[key]);
      }
      if key in mem && mem[key].Insert? {
        return Threw;
      }
      WriteDelta(sum, disk, mem, key, delta);
      Write(key, DeltaTag(sum, mem, key, delta), Reading(true, sum.add(Value(key).acc, delta)));
      return Ok;
    }

    method InsertInMemory(key: K, value: V)
      modifies this`mem, this`model
      ensures mem == InsertedMem(old(mem), key, value) && InsertWrote(sum, disk, old(mem), mem, key, value)
      ensures old(Plain()) && regime(key) == Undeleted ==> Plain() && model == ModelInsert(old(model), key, value)
      ensures old(Plain()) && regime(key) == Mixed ==> Plain() && model == old(model)
    {
      InsertInto(sum, disk, mem, key, value);
      if Plain() && regime(key) == Mixed {
        PlainMixed(sum, regime, disk, mem, model, key, Tag<V>.Insert(value));
      } else if Plain() && regime(key) == Undeleted {
        PlainInsert(sum, regime, disk, mem, model, key, value);
        model := ModelInsert(model, key, value);
      }
      if key !in mem || mem[key].Delete? {
        mem := mem[key := Insert(value)];
      }
    }

    /** Documented to leave an existing key alone and to insert otherwise. */
    method InsertValue(key: K, value: V) returns (status: Status)
      requires Valid()
      modifies this`disk, this`mem, this`flushes, this`model
      ensures status == Ok <==> Prepared(old(disk), old(mem)).Some?
      ensures status == Ok ==> Valid() && disk == Prepared(old(disk), old(mem)).value
      ensures status == Ok ==> mem == InsertedMem(Room(cachedRecords, old(mem)), key, value)
      ensures status == Ok ==> InsertWrote(sum, disk, Room(cachedRecords, old(mem)), mem, key, value)
      ensures old(Plain()) && regime(key) == Undeleted ==>
        Plain() && (status == Ok ==> model == ModelInsert(old(model), key, value))
      ensures old(Plain()) && regime(key) == Mixed ==> Plain()
    {
      status := TryToMerge();
      if status == Ok {
        InsertInMemory(key, value);
      }
    }

    /**
      Update, optimize, del, insertValue: the key is absent before the insertion, and has its
      old value afterwards. From an empty database nothing of this throws.
     */
    method Resurrect(key: K, value: V, other: V) returns (status: Status, ghost before: Reading<V>)
      requires Valid() && cachedRecords >= 2 && value != other
      modifies this`disk, this`mem, this`flushes, this`optimized, this`model
      ensures old(disk) == [] && old(mem) == map[] ==> status == Ok
      ensures status == Ok ==> Valid() && before == Absent(sum) && Value(key) == Reading(true, value)
    {
      before := Absent(sum);
      status := Update(key, value);
      if status == Threw { return; }
      status := Optimize();
      if status == Threw { return; }
      status := Del(key);
      before := Value(key);
      status := InsertValue(key, other);
    }
  }
}
