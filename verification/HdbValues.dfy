/** What a key reads as, and how flushing and merging leave that alone. */
module HdbValues {
  import opened HdbTags
  import opened HdbParts
  import opened HdbMerging

  /** The reading of a key, from the disk partitions and then the memory partition. */
  ghost function Below<K, V>(sum: Sum<V>, parts: seq<Sdb<K, V>>, key: K): Reading<V> {
    Fold(sum, Absent(sum), TagsOf(parts, key))
  }

  ghost function ValueOf<K, V>(sum: Sum<V>, parts: seq<Sdb<K, V>>, mem: Sdb<K, V>, key: K): Reading<V> {
    if key in mem then Read(sum, Below(sum, parts, key), mem[key]) else Below(sum, parts, key)
  }

  lemma FoldSome<V>(sum: Sum<V>, r: Reading<V>, tag: Tag<V>)
    ensures Fold(sum, r, [tag]) == Read(sum, r, tag)
  {
    FoldNext(sum, r, [], tag);
    assert [] + [tag] == [tag];
  }

  lemma BelowConcat<K, V>(sum: Sum<V>, a: seq<Sdb<K, V>>, b: seq<Sdb<K, V>>, key: K)
    ensures Below(sum, a + b, key) == Fold(sum, Below(sum, a, key), TagsOf(b, key))
  {
    TagsConcat(a, b, key);
    FoldConcat(sum, Absent(sum), TagsOf(a, key), TagsOf(b, key));
  }

  lemma BelowNext<K, V>(sum: Sum<V>, a: seq<Sdb<K, V>>, b: Sdb<K, V>, key: K)
    ensures Below(sum, a + [b], key) == if key in b then Read(sum, Below(sum, a, key), b[key]) else Below(sum, a, key)
  {
    BelowConcat(sum, a, [b], key);
    assert [b][..0] == [];
    if key in b {
      assert TagsOf([b], key) == [b[key]];
      FoldSome(sum, Below(sum, a, key), b[key]);
    } else {
      assert TagsOf([b], key) == [];
    }
  }

  /** The proper readings are exactly those that partitions can give. */
  lemma ProperExactly<K, V>(sum: Sum<V>, r: Reading<V>, key: K)
    ensures Proper(sum, r) <==> exists parts: seq<Sdb<K, V>> :: Below(sum, parts, key) == r
  {
    if Proper(sum, r) {
      var sdb: Sdb<K, V> := map[key := Update(r.acc)];
      BelowNext(sum, [], sdb, key);
      assert Below(sum, [], key) == Absent(sum);
      assert [] + [sdb] == [sdb];
      assert Below(sum, if r.found then [sdb] else [], key) == r;
    }
    if parts: seq<Sdb<K, V>> :| Below(sum, parts, key) == r {
      FoldProper(sum, Absent(sum), TagsOf(parts, key));
    }
  }

  /** Flushing the memory partition. */
  lemma FlushKeeps<K, V>(sum: Sum<V>, parts: seq<Sdb<K, V>>, mem: Sdb<K, V>, key: K)
    ensures ValueOf(sum, parts + [mem], map[], key) == ValueOf(sum, parts, mem, key)
  {
    BelowNext(sum, parts, mem, key);
  }

  /**
    Merging the newest disk partitions b, above a: what is below memory stays the same exactly
    under MergedReading's condition.
   */
  lemma MergeKeeps<K(!new), V(!new)>(sum: Sum<V>, a: seq<Sdb<K, V>>, b: seq<Sdb<K, V>>, dst: Sdb<K, V>, key: K)
    requires Monoid(sum) && IsMerged(sum, b, false, dst)
    ensures Below(sum, a + [dst], key) == Below(sum, a + b, key) <==>
      (!Has(b, key) || Mergeable(TagsOf(b, key)) ||
       (key in dst && Read(sum, Below(sum, a, key), dst[key]) == Read(sum, Absent(sum), dst[key])))
  {
    BelowNext(sum, a, dst, key);
    BelowConcat(sum, a, b, key);
    TagsEmpty(b, key);
    if Has(b, key) {
      assert Combines(sum, b, key);
      MergedReading(sum, Below(sum, a, key), TagsOf(b, key));
    }
  }

  /** Merging everything and dropping the deletions. */
  lemma OptimizeKeeps<K(!new), V(!new)>(sum: Sum<V>, parts: seq<Sdb<K, V>>, dst: Sdb<K, V>, key: K)
    requires Monoid(sum) && IsMerged(sum, parts, true, dst)
    ensures Below(sum, [dst], key) == Below(sum, parts, key)
  {
    assert [dst] == [] + [dst];
    BelowNext(sum, [], dst, key);
    TagsEmpty(parts, key);
    if Has(parts, key) {
      assert Combines(sum, parts, key);
      MergedAll(sum, TagsOf(parts, key));
    }
  }

  // ---- keys that are only updated and deleted, only updated and incremented, or never deleted, among others ----

  datatype Regime = UpdateDelete | UpdateDelta | Undeleted | Mixed

  predicate Fits<V>(regime: Regime, tag: Tag<V>) {
    match regime
    case UpdateDelete => tag.Update? || tag.Delete?
    case UpdateDelta => tag.Update? || tag.Delta?
    case Undeleted => !tag.Delete?
    case Mixed => true
  }

  /** Regimes whose tags always combine. */
  predicate Calm(regime: Regime) {
    regime == UpdateDelete || regime == UpdateDelta
  }

  ghost predicate AllFit<V>(regime: Regime, tags: seq<Tag<V>>) {
    forall i :: 0 <= i < |tags| ==> Fits(regime, tags[i])
  }

  ghost predicate Tame<K(!new), V>(regime: K -> Regime, sdb: Sdb<K, V>) {
    forall k :: k in sdb ==> Fits(regime(k), sdb[k])
  }

  ghost predicate AllTame<K(!new), V>(regime: K -> Regime, parts: seq<Sdb<K, V>>) {
    forall i :: 0 <= i < |parts| ==> Tame(regime, parts[i])
  }

  /** Tags of a calm regime combine, and to a tag of the regime. */
  lemma {:induction false} CalmCombine<V(!new)>(sum: Sum<V>, regime: Regime, tags: seq<Tag<V>>)
    requires Monoid(sum) && Calm(regime) && AllFit(regime, tags)
    ensures var c := Combine(sum, tags);
      && !c.Failed? && !c.hasInsert
      && (regime == UpdateDelete ==> !c.hasDelta && Mergeable(tags))
    decreases |tags|
  {
    if tags != [] {
      var n := |tags| - 1;
      CalmCombine(sum, regime, tags[..n]);
      CombineMeans(sum, Absent(sum), tags);
      assert Fits(regime, tags[n]);
    }
  }

  /** Tags of one regime are mergeable, and if they combine then to a tag of the regime. */
  lemma FitCombine<V(!new)>(sum: Sum<V>, regime: Regime, tags: seq<Tag<V>>)
    requires Monoid(sum) && regime != Mixed && AllFit(regime, tags)
    ensures Mergeable(tags) && (Calm(regime) ==> !Combine(sum, tags).Failed?)
    ensures tags != [] && !Combine(sum, tags).Failed? ==> Fits(regime, Finish(Combine(sum, tags)))
  {
    if Calm(regime) {
      CalmCombine(sum, regime, tags);
    }
    if tags != [] && !Combine(sum, tags).Failed? {
      CombineMeans(sum, Absent(sum), tags);
    }
  }

  lemma {:induction false} TameTags<K(!new), V>(regime: K -> Regime, parts: seq<Sdb<K, V>>, key: K)
    requires AllTame(regime, parts)
    ensures AllFit(regime(key), TagsOf(parts, key))
    decreases |parts|
  {
    if parts != [] {
      var n := |parts| - 1;
      assert Tame(regime, parts[n]);
      TameTags(regime, parts[..n], key);
    }
  }

  lemma TameCombines<K(!new), V(!new)>(sum: Sum<V>, regime: K -> Regime, parts: seq<Sdb<K, V>>, key: K)
    requires Monoid(sum) && AllTame(regime, parts) && regime(key) != Mixed
    ensures Mergeable(TagsOf(parts, key)) && (Calm(regime(key)) ==> Combines(sum, parts, key))
    ensures Has(parts, key) && Combines(sum, parts, key) ==> Fits(regime(key), Combined(sum, parts, key))
  {
    TameTags(regime, parts, key);
    FitCombine(sum, regime(key), TagsOf(parts, key));
    TagsEmpty(parts, key);
  }

  lemma TameMerged<K(!new), V(!new)>(sum: Sum<V>, regime: K -> Regime, parts: seq<Sdb<K, V>>, drop: bool,
      dst: Sdb<K, V>)
    requires Monoid(sum) && AllTame(regime, parts) && IsMerged(sum, parts, drop, dst)
    ensures Tame(regime, dst)
  {
    forall k | k in dst ensures Fits(regime(k), dst[k]) {
      if regime(k) != Mixed {
        TameCombines(sum, regime, parts, k);
      }
    }
  }

  // ---- a plain map ----

  ghost function ModelReading<K, V>(sum: Sum<V>, model: map<K, V>, key: K): Reading<V> {
    if key in model then Reading(true, model[key]) else Absent(sum)
  }

  /** Every key is only updated and deleted, or only updated and incremented. */
  ghost predicate Strict<K(!new)>(regime: K -> Regime) {
    forall k :: Calm(regime(k))
  }

  ghost predicate Agrees<K(!new), V>(sum: Sum<V>, regime: K -> Regime, parts: seq<Sdb<K, V>>, mem: Sdb<K, V>,
      model: map<K, V>) {
    forall k :: regime(k) != Mixed ==> ValueOf(sum, parts, mem, k) == ModelReading(sum, model, k)
  }

  /** Every key has tags of its regime only, and reads as in the plain map unless it is used in mixed ways. */
  ghost predicate PlainMap<K(!new), V>(sum: Sum<V>, regime: K -> Regime, parts: seq<Sdb<K, V>>, mem: Sdb<K, V>,
      model: map<K, V>) {
    AllTame(regime, parts) && Tame(regime, mem) && Agrees(sum, regime, parts, mem, model)
  }

  /** Readings of the keys in a set stay the same. */
  ghost predicate SameValues<K(!new), V>(sum: Sum<V>, parts: seq<Sdb<K, V>>, mem: Sdb<K, V>, parts': seq<Sdb<K, V>>,
      mem': Sdb<K, V>) {
    forall k :: ValueOf(sum, parts', mem', k) == ValueOf(sum, parts, mem, k)
  }

  lemma PlainFlush<K(!new), V(!new)>(sum: Sum<V>, regime: K -> Regime, parts: seq<Sdb<K, V>>, mem: Sdb<K, V>,
      model: map<K, V>)
    ensures SameValues(sum, parts, mem, parts + [mem], map[])
    ensures PlainMap(sum, regime, parts, mem, model) ==> PlainMap(sum, regime, parts + [mem], map[], model)
  {
    forall k ensures ValueOf(sum, parts + [mem], map[], k) == ValueOf(sum, parts, mem, k) {
      FlushKeeps(sum, parts, mem, k);
    }
  }

  lemma TameParts<K(!new), V(!new)>(regime: K -> Regime, older: seq<Sdb<K, V>>, newest: seq<Sdb<K, V>>)
    requires AllTame(regime, older + newest)
    ensures AllTame(regime, older) && AllTame(regime, newest)
  {
    forall i | 0 <= i < |older| ensures Tame(regime, older[i]) {
      assert (older + newest)[i] == older[i];
    }
    forall i | 0 <= i < |newest| ensures Tame(regime, newest[i]) {
      assert (older + newest)[|older| + i] == newest[i];
    }
  }

  /** The tags of a plain key are mergeable, and those of a calm key combine. */
  lemma PlainCombines<K(!new), V(!new)>(sum: Sum<V>, regime: K -> Regime, older: seq<Sdb<K, V>>, newest: seq<Sdb<K, V>>)
    requires Monoid(sum) && AllTame(regime, older + newest)
    ensures forall k :: regime(k) != Mixed ==> Mergeable(TagsOf(newest, k))
    ensures forall k :: Calm(regime(k)) ==> Combines(sum, newest, k)
  {
    TameParts(regime, older, newest);
    forall k | regime(k) != Mixed
      ensures Mergeable(TagsOf(newest, k)) && (Calm(regime(k)) ==> Combines(sum, newest, k)) {
      TameCombines(sum, regime, newest, k);
    }
  }

  lemma MergeValues<K(!new), V(!new)>(sum: Sum<V>, older: seq<Sdb<K, V>>, newest: seq<Sdb<K, V>>, dst: Sdb<K, V>,
      mem: Sdb<K, V>)
    requires Monoid(sum) && IsMerged(sum, newest, false, dst)
    ensures forall k :: Mergeable(TagsOf(newest, k)) ==>
      ValueOf(sum, older + [dst], mem, k) == ValueOf(sum, older + newest, mem, k)
  {
    forall k | Mergeable(TagsOf(newest, k))
      ensures ValueOf(sum, older + [dst], mem, k) == ValueOf(sum, older + newest, mem, k) {
      MergeKeeps(sum, older, newest, dst, k);
    }
  }

  lemma PlainMerge<K(!new), V(!new)>(sum: Sum<V>, regime: K -> Regime, older: seq<Sdb<K, V>>, newest: seq<Sdb<K, V>>,
      dst: Sdb<K, V>, mem: Sdb<K, V>, model: map<K, V>)
    requires Monoid(sum) && IsMerged(sum, newest, false, dst) && PlainMap(sum, regime, older + newest, mem, model)
    ensures PlainMap(sum, regime, older + [dst], mem, model)
  {
    TameParts(regime, older, newest);
    PlainCombines(sum, regime, older, newest);
    TameMerged(sum, regime, newest, false, dst);
    MergeValues(sum, older, newest, dst, mem);
    forall k | regime(k) != Mixed ensures ValueOf(sum, older + [dst], mem, k) == ModelReading(sum, model, k) {
      assert Mergeable(TagsOf(newest, k));
    }
  }

  lemma PlainOptimize<K(!new), V(!new)>(sum: Sum<V>, regime: K -> Regime, parts: seq<Sdb<K, V>>, dst: Sdb<K, V>,
      model: map<K, V>)
    requires Monoid(sum) && IsMerged(sum, parts, true, dst)
    ensures SameValues(sum, parts, map[], [dst], map[])
    ensures PlainMap(sum, regime, parts, map[], model) ==> PlainMap(sum, regime, [dst], map[], model)
  {
    forall k ensures ValueOf(sum, [dst], map[], k) == ValueOf(sum, parts, map[], k) {
      OptimizeKeeps(sum, parts, dst, k);
    }
    if PlainMap(sum, regime, parts, map[], model) {
      TameMerged(sum, regime, parts, true, dst);
    }
  }
}
