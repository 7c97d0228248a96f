/**
  Tagged records of HugeDB. Reading a key folds its tags from the oldest partition to the
  newest; merging replaces some of them by one combined tag.
 */
module HdbTags {

  datatype Tag<V> = Insert(value: V) | Update(value: V) | Delta(value: V) | Delete

  /** ADD, with ValueType() as its zero. */
  datatype Sum<!V> = Sum(zero: V, add: (V, V) -> V)

  ghost predicate Associates<V>(s: Sum<V>, x: V, y: V, z: V) {
    s.add(s.add(x, y), z) == s.add(x, s.add(y, z))
  }

  ghost predicate Monoid<V(!new)>(s: Sum<V>) {
    (forall x :: s.add(s.zero, x) == x) && (forall x, y, z :: Associates(s, x, y, z))
  }

  // ---- getValue ----

  datatype Reading<V> = Reading(found: bool, acc: V)

  function Absent<V>(s: Sum<V>): Reading<V> {
    Reading(false, s.zero)
  }

  /** Readings that getValue can reach: nothing found, nothing accumulated. */
  ghost predicate Proper<V>(s: Sum<V>, r: Reading<V>) {
    !r.found ==> r.acc == s.zero
  }

  function Read<V>(s: Sum<V>, r: Reading<V>, tag: Tag<V>): Reading<V> {
    match tag
    case Insert(v) => if r.found then r else Reading(true, v)
    case Update(v) => Reading(true, v)
    case Delta(v) => Reading(true, s.add(r.acc, v))
    case Delete => Absent(s)
  }

  function Fold<V>(s: Sum<V>, r: Reading<V>, tags: seq<Tag<V>>): Reading<V> {
    if tags == [] then r else Read(s, Fold(s, r, tags[..|tags| - 1]), tags[|tags| - 1])
  }

  lemma FoldNext<V>(s: Sum<V>, r: Reading<V>, tags: seq<Tag<V>>, tag: Tag<V>)
    ensures Fold(s, r, tags + [tag]) == Read(s, Fold(s, r, tags), tag)
  {
    assert (tags + [tag])[..|tags|] == tags;
  }

  lemma {:induction false} FoldConcat<V>(s: Sum<V>, r: Reading<V>, a: seq<Tag<V>>, b: seq<Tag<V>>)
    ensures Fold(s, r, a + b) == Fold(s, Fold(s, r, a), b)
    decreases |b|
  {
    if b == [] {
      assert a + b == a;
    } else {
      var n := |b| - 1;
      assert a + b == (a + b[..n]) + [b[n]];
      FoldNext(s, r, a + b[..n], b[n]);
      FoldConcat(s, r, a, b[..n]);
    }
  }

  lemma {:induction false} FoldProper<V>(s: Sum<V>, r: Reading<V>, tags: seq<Tag<V>>)
    requires Proper(s, r)
    ensures Proper(s, Fold(s, r, tags))
    decreases |tags|
  {
    if tags != [] {
      FoldProper(s, r, tags[..|tags| - 1]);
    }
  }

  // ---- combining, as the cursor does ----

  /** Failed is the exception about insert together with delta. */
  datatype Combining<V> = Failed | Combining(acc: V, hasInsert: bool, hasUpdate: bool, hasDelta: bool)

  function Fresh<V>(s: Sum<V>): Combining<V> {
    Combining(s.zero, false, false, false)
  }

  function Take<V>(s: Sum<V>, c: Combining<V>, tag: Tag<V>): Combining<V> {
    if c.Failed? then Failed else
      match tag
      case Insert(v) =>
        if !c.hasInsert && !c.hasUpdate && !c.hasDelta then c.(acc := v, hasInsert := true) else c
      case Update(v) => c.(acc := v, hasUpdate := true)
      case Delta(v) =>
        if c.hasInsert then Failed else c.(acc := s.add(c.acc, v), hasDelta := true)
      case Delete => Fresh(s)
  }

  function Combine<V>(s: Sum<V>, tags: seq<Tag<V>>): Combining<V> {
    if tags == [] then Fresh(s) else Take(s, Combine(s, tags[..|tags| - 1]), tags[|tags| - 1])
  }

  lemma CombineNext<V>(s: Sum<V>, tags: seq<Tag<V>>, tag: Tag<V>)
    ensures Combine(s, tags + [tag]) == Take(s, Combine(s, tags), tag)
  {
    assert (tags + [tag])[..|tags|] == tags;
  }

  lemma {:induction false} CombineConcat<V>(s: Sum<V>, a: seq<Tag<V>>, b: seq<Tag<V>>)
    requires Combine(s, a).Failed?
    ensures Combine(s, a + b).Failed?
    decreases |b|
  {
    if b == [] {
      assert a + b == a;
    } else {
      assert a + b == (a + b[..|b| - 1]) + [b[|b| - 1]];
      CombineNext(s, a + b[..|b| - 1], b[|b| - 1]);
      CombineConcat(s, a, b[..|b| - 1]);
    }
  }

  function Finish<V>(c: Combining<V>): Tag<V>
    requires !c.Failed?
  {
    if c.hasUpdate then Update(c.acc)
    else if c.hasDelta then Delta(c.acc)
    else if c.hasInsert then Insert(c.acc)
    else Delete
  }

  // ---- when combining fails ----

  /** An insert that finds nothing before it since the last deletion. */
  ghost predicate Leads<V>(tags: seq<Tag<V>>, i: int) {
    0 <= i < |tags| && tags[i].Insert? && (i == 0 || tags[i - 1].Delete?)
  }

  /** A delta at j meets that insert: no deletion lies between them. */
  ghost predicate Meets<V>(tags: seq<Tag<V>>, i: int, j: int) {
    i < j < |tags| && Leads(tags, i) && tags[j].Delta? && forall k :: i < k < j ==> !tags[k].Delete?
  }

  ghost predicate Conflicting<V>(tags: seq<Tag<V>>) {
    exists i, j :: Meets(tags, i, j)
  }

  /** A leading insert without deletion behind it. */
  ghost predicate Opens<V>(tags: seq<Tag<V>>, i: int) {
    Leads(tags, i) && forall k :: i < k < |tags| ==> !tags[k].Delete?
  }

  ghost predicate Open<V>(tags: seq<Tag<V>>) {
    exists i :: Opens(tags, i)
  }

  lemma OpenNext<V>(tags: seq<Tag<V>>, tag: Tag<V>)
    ensures Open(tags + [tag]) <==>
      (Open(tags) && !tag.Delete?) || (tag.Insert? && (tags == [] || EndsInDelete(tags)))
  {
    var all, n := tags + [tag], |tags|;
    if i :| Opens(all, i) {
      if i < n {
        assert all[n] == tag && forall k :: 0 <= k < n ==> all[k] == tags[k];
        assert Opens(tags, i);
      } else {
        assert n > 0 ==> all[n - 1] == tags[n - 1];
      }
    }
    if i :| Opens(tags, i) && !tag.Delete? {
      assert Opens(all, i);
    }
    if tag.Insert? && (tags == [] || EndsInDelete(tags)) {
      assert Opens(all, n);
    }
  }

  lemma ConflictNext<V>(tags: seq<Tag<V>>, tag: Tag<V>)
    ensures Conflicting(tags + [tag]) <==> Conflicting(tags) || (tag.Delta? && Open(tags))
  {
    var all, n := tags + [tag], |tags|;
    assert all[n] == tag && forall k :: 0 <= k < n ==> all[k] == tags[k];
    if i, j :| Meets(all, i, j) {
      if j < n {
        assert Meets(tags, i, j);
      } else {
        assert Opens(tags, i);
      }
    }
    if i, j :| Meets(tags, i, j) {
      assert Meets(all, i, j);
    }
    if tag.Delta? && Open(tags) {
      var i :| Opens(tags, i);
      assert Meets(all, i, n);
    }
  }

  /**
    Combining fails exactly when a delta follows an insert that had nothing before it, with no
    deletion between them.
   */
  lemma {:induction false} FailsExactly<V>(s: Sum<V>, tags: seq<Tag<V>>)
    ensures Combine(s, tags).Failed? <==> Conflicting(tags)
    ensures var c := Combine(s, tags);
      !c.Failed? ==>
        && (c.hasInsert <==> Open(tags))
        && (!c.hasInsert && !c.hasUpdate && !c.hasDelta <==> tags == [] || EndsInDelete(tags))
    decreases |tags|
  {
    if tags != [] {
      var n := |tags| - 1;
      assert tags == tags[..n] + [tags[n]];
      FailsExactly(s, tags[..n]);
      OpenNext(tags[..n], tags[n]);
      ConflictNext(tags[..n], tags[n]);
    }
  }

  /** Inserts and updates alone never conflict. */
  lemma NeedsDelta<V>(tags: seq<Tag<V>>)
    requires forall i :: 0 <= i < |tags| ==> !tags[i].Delta?
    ensures !Conflicting(tags)
  {
  }

  // ---- when a combined tag reads like the tags it stands for ----

  ghost predicate HasDelete<V>(tags: seq<Tag<V>>) {
    exists i :: 0 <= i < |tags| && tags[i].Delete?
  }

  /** An update occurs behind the last deletion. */
  predicate UpdateAfterDelete<V>(tags: seq<Tag<V>>) {
    tags != [] && !tags[|tags| - 1].Delete? && (tags[|tags| - 1].Update? || UpdateAfterDelete(tags[..|tags| - 1]))
  }

  ghost predicate EndsInDelete<V>(tags: seq<Tag<V>>) {
    tags != [] && tags[|tags| - 1].Delete?
  }

  ghost predicate Mergeable<V>(tags: seq<Tag<V>>) {
    !HasDelete(tags) || EndsInDelete(tags) || UpdateAfterDelete(tags)
  }

  /** What the combining state means on top of a reading. */
  function Meaning<V>(s: Sum<V>, c: Combining<V>, r: Reading<V>): Reading<V>
    requires !c.Failed?
  {
    if c.hasUpdate then Reading(true, c.acc)
    else if c.hasDelta then Reading(true, s.add(r.acc, c.acc))
    else if c.hasInsert then (if r.found then r else Reading(true, c.acc))
    else r
  }

  lemma HasDeleteNext<V>(tags: seq<Tag<V>>, tag: Tag<V>)
    ensures HasDelete(tags + [tag]) <==> HasDelete(tags) || tag.Delete?
  {
    if HasDelete(tags) {
      var i :| 0 <= i < |tags| && tags[i].Delete?;
      assert (tags + [tag])[i].Delete?;
    }
    assert (tags + [tag])[|tags|] == tag;
  }

  /** A deletion makes the reading below irrelevant; the rest is what the state means. */
  lemma {:induction false} CombineMeans<V(!new)>(s: Sum<V>, r: Reading<V>, tags: seq<Tag<V>>)
    requires Monoid(s) && !Combine(s, tags).Failed?
    ensures var c := Combine(s, tags);
      && Fold(s, r, tags) == Meaning(s, c, if HasDelete(tags) then Absent(s) else r)
      && (c.hasUpdate <==> UpdateAfterDelete(tags))
      && (!c.hasUpdate && !c.hasDelta && !c.hasInsert <==> tags == [] || EndsInDelete(tags))
      && (!c.hasUpdate && !c.hasDelta && !c.hasInsert ==> c.acc == s.zero)
      && (c.hasInsert && c.hasDelta ==> c.hasUpdate)
    decreases |tags|
  {
    if tags != [] {
      var n := |tags| - 1;
      var past := tags[..n];
      assert tags == past + [tags[n]];
      CombineMeans(s, r, past);
      HasDeleteNext(past, tags[n]);
      if tags[n].Delta? {
        assert Associates(s, if HasDelete(past) then s.zero else r.acc, Combine(s, past).acc, tags[n].value);
      }
    }
  }

  /**
    The combined tag reads like the tags exactly when they are mergeable, or their difference does
    not show on this reading.
   */
  lemma MergedReading<V(!new)>(s: Sum<V>, r: Reading<V>, tags: seq<Tag<V>>)
    requires Monoid(s) && tags != [] && !Combine(s, tags).Failed?
    ensures var tag := Finish(Combine(s, tags));
      Read(s, r, tag) == Fold(s, r, tags) <==>
        Mergeable(tags) || Read(s, r, tag) == Read(s, Absent(s), tag)
  {
    CombineMeans(s, r, tags);
  }

  /** Every value differs from some other, and from its sum with some value below. */
  ghost predicate Shows<V(!new)>(s: Sum<V>, other: V -> V, below: V -> V) {
    forall v :: other(v) != v && s.add(below(v), v) != v
  }

  ghost predicate ReadsAlike<V(!new)>(s: Sum<V>, tags: seq<Tag<V>>, tag: Tag<V>) {
    forall r :: Proper(s, r) ==> Read(s, r, tag) == Fold(s, r, tags)
  }

  /** A value below on which the combined tag reads otherwise. */
  ghost function Telling<V>(other: V -> V, below: V -> V, tag: Tag<V>): V
    requires tag.Insert? || tag.Delta?
  {
    if tag.Insert? then other(tag.value) else below(tag.value)
  }

  lemma NotMergeable<V(!new)>(s: Sum<V>, other: V -> V, below: V -> V, tags: seq<Tag<V>>)
    requires Monoid(s) && Shows(s, other, below) && tags != [] && !Combine(s, tags).Failed? && !Mergeable(tags)
    ensures var tag := Finish(Combine(s, tags));
      && (tag.Insert? || tag.Delta?)
      && Read(s, Reading(true, Telling(other, below, tag)), tag) != Fold(s, Reading(true, Telling(other, below, tag)),
        tags)
  {
    var tag := Finish(Combine(s, tags));
    CombineMeans(s, Absent(s), tags);
    MergedReading(s, Reading(true, Telling(other, below, tag)), tags);
    assert other(tag.value) != tag.value && s.add(below(tag.value), tag.value) != tag.value;
  }

  /** Whatever lies below, the combined tag reads like the tags: exactly when they are mergeable. */
  lemma MergedAlways<V(!new)>(s: Sum<V>, other: V -> V, below: V -> V, tags: seq<Tag<V>>)
    requires Monoid(s) && Shows(s, other, below) && tags != [] && !Combine(s, tags).Failed?
    ensures ReadsAlike(s, tags, Finish(Combine(s, tags))) <==> Mergeable(tags)
  {
    var tag := Finish(Combine(s, tags));
    if Mergeable(tags) {
      forall r ensures Read(s, r, tag) == Fold(s, r, tags) {
        MergedReading(s, r, tags);
      }
    } else {
      NotMergeable(s, other, below, tags);
      assert Proper(s, Reading(true, Telling(other, below, tag)));
    }
  }

  /** With nothing below, it always does. */
  lemma MergedAll<V(!new)>(s: Sum<V>, tags: seq<Tag<V>>)
    requires Monoid(s) && tags != [] && !Combine(s, tags).Failed?
    ensures Read(s, Absent(s), Finish(Combine(s, tags))) == Fold(s, Absent(s), tags)
  {
    MergedReading(s, Absent(s), tags);
  }

  /** A single tag combines to itself. */
  lemma CombineOne<V(!new)>(s: Sum<V>, tag: Tag<V>)
    requires Monoid(s)
    ensures !Combine(s, [tag]).Failed? && Finish(Combine(s, [tag])) == tag
  {
    assert [tag][..0] == [];
    assert Combine(s, [tag]) == Take(s, Fresh(s), tag);
  }

  /** The value lost: delete and insert again, over an older update. */
  lemma MergeLosesInsert<V(!new)>(s: Sum<V>, before: V, after: V)
    requires Monoid(s) && before != after
    ensures var tags := [Delete, Insert(after)];
      && Fold(s, Reading(true, before), tags) == Reading(true, after)
      && !Combine(s, tags).Failed? && Read(s, Reading(true, before), Finish(Combine(s, tags))) == Reading(true, before)
  {
    var first: seq<Tag<V>>, last := [Delete], Insert(after);
    assert first == [] + [Delete] && [Delete, last] == first + [last];
    FoldNext(s, Reading(true, before), first, last);
    FoldNext(s, Reading(true, before), [], Delete);
    CombineNext(s, first, last);
    CombineNext(s, [], Delete);
  }
}
