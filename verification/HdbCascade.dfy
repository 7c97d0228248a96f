/**
  The merges that one flush sets off, as a function of the partitions: newest partitions of one
  level are merged as long as there are enough of them, or until some key's tags do not combine.
 */
module HdbCascade {
  import opened Wrappers
  import opened HdbTags
  import opened HdbParts
  import opened HdbMerging
  import opened HdbValues
  import opened HdbPartitions
  import opened HdbSteps

  ghost function KeysOf<K, V>(parts: seq<Sdb<K, V>>): set<K> {
    set i, k | 0 <= i < |parts| && k in parts[i] :: k
  }

  /** The partition that replaces the given ones. */
  ghost function MergedTags<K(!new), V>(sum: Sum<V>, parts: seq<Sdb<K, V>>): Sdb<K, V>
    requires NoConflicts(parts)
  {
    NoConflictsCombine(sum, parts);
    map k | k in KeysOf(parts) :: assert Has(parts, k); Combined(sum, parts, k)
  }

  /** There is only one such partition. */
  lemma MergedUnique<K(!new), V(!new)>(sum: Sum<V>, parts: seq<Sdb<K, V>>, dst: Sdb<K, V>)
    requires IsMerged(sum, parts, false, dst)
    ensures NoConflicts(parts) && dst == MergedTags(sum, parts)
  {
    NoConflictsCombine(sum, parts);
    forall k ensures k in dst <==> k in KeysOf(parts) {
      assert k in dst ==> Has(parts, k);
      assert k in KeysOf(parts) ==> Has(parts, k);
    }
  }

  lemma MergedTagsMerged<K(!new), V(!new)>(sum: Sum<V>, parts: seq<Sdb<K, V>>)
    requires NoConflicts(parts)
    ensures IsMerged(sum, parts, false, MergedTags(sum, parts))
  {
    NoConflictsCombine(sum, parts);
    forall k ensures Has(parts, k) <==> k in KeysOf(parts) {
    }
  }

  /** None when a merge throws. */
  ghost function Cascade<K(!new), V>(sum: Sum<V>, M: nat, disk: seq<Partition<K, V>>): Option<seq<Partition<K, V>>>
    decreases |disk|
  {
    if !IsMergable(M, disk) then Some(disk)
    else if NoConflicts(Newest(M, disk)) then Cascade(sum, M, Merged(M, disk, MergedTags(sum, Newest(M, disk))))
    else None
  }

  lemma CascadeNext<K(!new), V(!new)>(sum: Sum<V>, M: nat, disk: seq<Partition<K, V>>)
    ensures !IsMergable(M, disk) ==> Cascade(sum, M, disk) == Some(disk)
    ensures IsMergable(M, disk) && NoConflicts(Newest(M, disk)) ==>
      Cascade(sum, M, disk) == Cascade(sum, M, Merged(M, disk, MergedTags(sum, Newest(M, disk))))
    ensures IsMergable(M, disk) && !NoConflicts(Newest(M, disk)) ==> Cascade(sum, M, disk) == None
  {
  }

  /** A key without deletion. */
  ghost predicate NoDeletion<K, V>(disk: seq<Partition<K, V>>, key: K) {
    !HasDelete(TagsOf(Sdbs(disk), key))
  }

  lemma HasDeleteConcat<V>(a: seq<Tag<V>>, b: seq<Tag<V>>)
    ensures HasDelete(a + b) <==> HasDelete(a) || HasDelete(b)
  {
    if HasDelete(a) {
      var i :| 0 <= i < |a| && a[i].Delete?;
      assert (a + b)[i].Delete?;
    }
    if HasDelete(b) {
      var i :| 0 <= i < |b| && b[i].Delete?;
      assert (a + b)[|a| + i].Delete?;
    }
  }

  lemma UndeletedParts<K, V>(M: nat, disk: seq<Partition<K, V>>, key: K)
    requires M <= |disk| && NoDeletion(disk, key)
    ensures NoDeletion(disk[..|disk| - M], key) && !HasDelete(TagsOf(Newest(M, disk), key))
  {
    var older := Sdbs(disk[..|disk| - M]);
    assert Sdbs(disk) == older + Newest(M, disk);
    TagsConcat(older, Newest(M, disk), key);
    HasDeleteConcat(TagsOf(older, key), TagsOf(Newest(M, disk), key));
  }

  /** Tags without deletion combine to a tag that is none. */
  lemma CombinedUndeleted<K(!new), V(!new)>(sum: Sum<V>, parts: seq<Sdb<K, V>>, dst: Sdb<K, V>, key: K)
    requires Monoid(sum) && IsMerged(sum, parts, false, dst) && !HasDelete(TagsOf(parts, key))
    ensures !HasDelete(TagsOf([dst], key))
  {
    LastTag(dst, key);
    TagsEmpty(parts, key);
    if key in dst {
      CombineMeans(sum, Absent(sum), TagsOf(parts, key));
    }
  }

  /** One merge keeps a key without deletion, and keeps it so. */
  lemma MergeUndeleted<K(!new), V(!new)>(sum: Sum<V>, M: nat, disk: seq<Partition<K, V>>, mem: Sdb<K, V>,
      dst: Sdb<K, V>, key: K)
    requires Monoid(sum) && 2 <= M <= |disk| && IsMerged(sum, Newest(M, disk), false, dst) && NoDeletion(disk, key)
    ensures NoDeletion(Merged(M, disk, dst), key)
    ensures DiskValue(sum, Merged(M, disk, dst), mem, key) == DiskValue(sum, disk, mem, key)
  {
    var older := Sdbs(disk[..|disk| - M]);
    UndeletedParts(M, disk, key);
    CombinedUndeleted(sum, Newest(M, disk), dst, key);
    MergedParts(M, disk, dst);
    TagsConcat(older, [dst], key);
    HasDeleteConcat(TagsOf(older, key), TagsOf([dst], key));
    MergeReadings(sum, M, disk, mem, dst);
    assert Mergeable(TagsOf(Newest(M, disk), key));
  }

  lemma LastTag<K, V>(dst: Sdb<K, V>, key: K)
    ensures TagsOf([dst], key) == if key in dst then [dst[key]] else []
  {
    assert [dst][..0] == [];
  }

  /** So do all of them. */
  lemma {:induction false} CascadeKeeps<K(!new), V(!new)>(sum: Sum<V>, M: nat, disk: seq<Partition<K, V>>,
      mem: Sdb<K, V>, key: K)
    requires Monoid(sum) && Cascade(sum, M, disk).Some? && NoDeletion(disk, key)
    ensures NoDeletion(Cascade(sum, M, disk).value, key)
    ensures DiskValue(sum, Cascade(sum, M, disk).value, mem, key) == DiskValue(sum, disk, mem, key)
    decreases |disk|
  {
    if IsMergable(M, disk) {
      var dst := MergedTags(sum, Newest(M, disk));
      MergedTagsMerged(sum, Newest(M, disk));
      MergeUndeleted(sum, M, disk, mem, dst, key);
      CascadeKeeps(sum, M, Merged(M, disk, dst), mem, key);
    }
  }

  // ---- a store without deltas never throws ----

  ghost predicate NoDelta<K(!new), V>(sdb: Sdb<K, V>) {
    forall k :: k in sdb ==> !sdb[k].Delta?
  }

  ghost predicate NoDeltas<K(!new), V>(parts: seq<Sdb<K, V>>) {
    forall i :: 0 <= i < |parts| ==> NoDelta(parts[i])
  }

  lemma {:induction false} NoDeltaTags<K(!new), V>(parts: seq<Sdb<K, V>>, key: K)
    requires NoDeltas(parts)
    ensures forall i :: 0 <= i < |TagsOf(parts, key)| ==> !TagsOf(parts, key)[i].Delta?
    decreases |parts|
  {
    if parts != [] {
      assert NoDelta(parts[|parts| - 1]);
      NoDeltaTags(parts[..|parts| - 1], key);
    }
  }

  /** Tags without delta combine to one that is none. */
  lemma {:induction false} CombineNoDelta<V>(sum: Sum<V>, tags: seq<Tag<V>>)
    requires forall i :: 0 <= i < |tags| ==> !tags[i].Delta?
    ensures !Combine(sum, tags).Failed? && !Combine(sum, tags).hasDelta
    decreases |tags|
  {
    if tags != [] {
      CombineNoDelta(sum, tags[..|tags| - 1]);
      assert !tags[|tags| - 1].Delta?;
    }
  }

  lemma NoDeltasMerge<K(!new), V(!new)>(sum: Sum<V>, parts: seq<Sdb<K, V>>)
    requires NoDeltas(parts)
    ensures NoConflicts(parts) && NoDelta(MergedTags(sum, parts))
  {
    forall k ensures !Conflicting(TagsOf(parts, k)) {
      NoDeltaTags(parts, k);
      NeedsDelta(TagsOf(parts, k));
    }
    MergedTagsMerged(sum, parts);
    forall k | k in MergedTags(sum, parts) ensures !MergedTags(sum, parts)[k].Delta? {
      NoDeltaTags(parts, k);
      CombineNoDelta(sum, TagsOf(parts, k));
    }
  }

  lemma NoDeltasSplit<K(!new), V>(a: seq<Sdb<K, V>>, b: seq<Sdb<K, V>>)
    ensures NoDeltas(a + b) <==> NoDeltas(a) && NoDeltas(b)
  {
    if NoDeltas(a + b) {
      forall i | 0 <= i < |a| ensures NoDelta(a[i]) {
        assert NoDelta((a + b)[i]);
      }
      forall i | 0 <= i < |b| ensures NoDelta(b[i]) {
        assert NoDelta((a + b)[|a| + i]);
      }
    }
  }

  lemma NoDeltasNext<K(!new), V(!new)>(sum: Sum<V>, M: nat, disk: seq<Partition<K, V>>)
    requires IsMergable(M, disk) && NoDeltas(Sdbs(disk))
    ensures NoConflicts(Newest(M, disk))
    ensures NoDeltas(Sdbs(Merged(M, disk, MergedTags(sum, Newest(M, disk)))))
  {
    var older := Sdbs(disk[..|disk| - M]);
    MergedParts(M, disk, map[]);
    NoDeltasSplit(older, Newest(M, disk));
    NoDeltasMerge(sum, Newest(M, disk));
    var dst := MergedTags(sum, Newest(M, disk));
    MergedParts(M, disk, dst);
    NoDeltasSplit(older, [dst]);
  }

  /** Inserts, updates and deletions alone never make the cascade throw. */
  lemma {:induction false} CascadeWithoutDelta<K(!new), V(!new)>(sum: Sum<V>, M: nat, disk: seq<Partition<K, V>>)
    requires NoDeltas(Sdbs(disk))
    ensures Cascade(sum, M, disk).Some? && NoDeltas(Sdbs(Cascade(sum, M, disk).value))
    decreases |disk|
  {
    if IsMergable(M, disk) {
      NoDeltasNext(sum, M, disk);
      CascadeWithoutDelta(sum, M, Merged(M, disk, MergedTags(sum, Newest(M, disk))));
    }
  }

  // ---- making room ----

  /**
    The partitions that an operation then works on: the same while memory has room, otherwise
    those after a flush and its merges.
   */
  ghost function Ready<K(!new), V>(base: string, sum: Sum<V>, M: nat, cached: nat, disk: seq<Partition<K, V>>,
      mem: Sdb<K, V>): Option<seq<Partition<K, V>>> {
    if |mem| < cached then Some(disk) else Cascade(sum, M, Flushed(base, disk, mem))
  }

  /** And the memory partition: empty after a flush. */
  function Room<K, V>(cached: nat, mem: Sdb<K, V>): Sdb<K, V> {
    if |mem| < cached then mem else map[]
  }

  lemma FlushedUndeleted<K, V>(base: string, disk: seq<Partition<K, V>>, mem: Sdb<K, V>, key: K)
    ensures NoDeletion(Flushed(base, disk, mem), key) <==> NoDeletion(disk, key) && !(key in mem && mem[key].Delete?)
  {
    assert Sdbs(Flushed(base, disk, mem)) == Sdbs(disk) + [mem];
    TagsConcat(Sdbs(disk), [mem], key);
    LastTag(mem, key);
    HasDeleteConcat(TagsOf(Sdbs(disk), key), TagsOf([mem], key));
    if key in mem && mem[key].Delete? {
      assert [mem[key]][0].Delete?;
    }
  }

  lemma FlushedValue<K, V>(base: string, sum: Sum<V>, disk: seq<Partition<K, V>>, mem: Sdb<K, V>, key: K)
    ensures DiskValue(sum, Flushed(base, disk, mem), map[], key) == DiskValue(sum, disk, mem, key)
  {
    FlushKeeps(sum, Sdbs(disk), mem, key);
    assert Sdbs(Flushed(base, disk, mem)) == Sdbs(disk) + [mem];
  }

  /** Making room keeps the reading of every key that has no deletion, whatever is done to other keys. */
  lemma ReadyKeeps<K(!new), V(!new)>(base: string, sum: Sum<V>, M: nat, cached: nat, disk: seq<Partition<K, V>>,
      mem: Sdb<K, V>, key: K)
    requires Monoid(sum) && Ready(base, sum, M, cached, disk, mem).Some?
    requires NoDeletion(disk, key) && !(key in mem && mem[key].Delete?)
    ensures DiskValue(sum, Ready(base, sum, M, cached, disk, mem).value, Room(cached, mem), key) ==
      DiskValue(sum, disk, mem, key)
  {
    if |mem| >= cached {
      var flushed := Flushed(base, disk, mem);
      FlushedUndeleted(base, disk, mem, key);
      FlushedValue(base, sum, disk, mem, key);
      CascadeKeeps(sum, M, flushed, map[], key);
    }
  }
}
