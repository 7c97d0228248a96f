/** Partitions as finite maps in key order, and what several of them hold for a key. */
module HdbParts {
  import opened HdbTags

  type Sdb<K, V> = map<K, Tag<V>>

  predicate Lt<K>(less: (K, K) -> bool, x: K, y: K) {
    less(x, y)
  }

  ghost predicate Total<K(!new)>(less: (K, K) -> bool) {
    && (forall x :: !Lt(less, x, x))
    && (forall x, y {:trigger Lt(less, x, y)} :: x != y ==> Lt(less, x, y) || Lt(less, y, x))
    && (forall x, y, z {:trigger Lt(less, x, y), Lt(less, y, z)} :: Lt(less, x, y) && Lt(less, y, z) ==> Lt(less, x, z))
  }

  /** The tags of the key from the oldest partition to the newest. */
  function TagsOf<K, V>(parts: seq<Sdb<K, V>>, key: K): seq<Tag<V>> {
    if parts == [] then []
    else
      var n := |parts| - 1;
      TagsOf(parts[..n], key) + (if key in parts[n] then [parts[n][key]] else [])
  }

  ghost predicate Has<K, V>(parts: seq<Sdb<K, V>>, key: K) {
    exists i :: 0 <= i < |parts| && key in parts[i]
  }

  lemma TagsNext<K, V>(parts: seq<Sdb<K, V>>, i: nat, key: K)
    requires i < |parts|
    ensures TagsOf(parts[..i + 1], key) == TagsOf(parts[..i], key) + (if key in parts[i] then [parts[i][key]] else [])
  {
    assert parts[..i + 1][..i] == parts[..i];
  }

  lemma {:induction false} TagsConcat<K, V>(a: seq<Sdb<K, V>>, b: seq<Sdb<K, V>>, key: K)
    ensures TagsOf(a + b, key) == TagsOf(a, key) + TagsOf(b, key)
    decreases |b|
  {
    if b == [] {
      assert a + b == a;
    } else {
      var n := |b| - 1;
      assert (a + b)[..|a + b| - 1] == a + b[..n];
      TagsConcat(a, b[..n], key);
      assert (a + b)[|a + b| - 1] == b[n];
    }
  }

  lemma {:induction false} TagsEmpty<K, V>(parts: seq<Sdb<K, V>>, key: K)
    ensures TagsOf(parts, key) == [] <==> !Has(parts, key)
    decreases |parts|
  {
    if parts != [] {
      var n := |parts| - 1;
      TagsEmpty(parts[..n], key);
      if Has(parts, key) {
        var i :| 0 <= i < |parts| && key in parts[i];
        assert i < n ==> key in parts[..n][i];
      }
    }
  }

  /** Partitions that agree on the key have the same tags for it. */
  lemma {:induction false} TagsAgree<K, V>(a: seq<Sdb<K, V>>, b: seq<Sdb<K, V>>, key: K)
    requires |a| == |b|
    requires forall i :: 0 <= i < |a| ==> (key in a[i] <==> key in b[i]) && (key in a[i] ==> a[i][key] == b[i][key])
    ensures TagsOf(a, key) == TagsOf(b, key)
    decreases |a|
  {
    if a != [] {
      TagsAgree(a[..|a| - 1], b[..|a| - 1], key);
    }
  }

  lemma Untouched<K, V>(sdb: Sdb<K, V>, key: K)
    requires key !in sdb
    ensures sdb - {key} == sdb
  {
  }

  function Minus<K, V>(parts: seq<Sdb<K, V>>, done: set<K>): (r: seq<Sdb<K, V>>)
    ensures |r| == |parts|
    ensures forall i :: 0 <= i < |parts| ==> r[i] == parts[i] - done
  {
    seq(|parts|, i requires 0 <= i < |parts| => parts[i] - done)
  }

  lemma MinusKeys<K, V>(parts: seq<Sdb<K, V>>, done: set<K>, key: K)
    ensures key !in done ==> TagsOf(Minus(parts, done), key) == TagsOf(parts, key)
    ensures Has(Minus(parts, done), key) <==> Has(parts, key) && key !in done
  {
    if key !in done {
      TagsAgree(Minus(parts, done), parts, key);
    }
    if Has(parts, key) && key !in done {
      var i :| 0 <= i < |parts| && key in parts[i];
      assert key in Minus(parts, done)[i];
    }
    if Has(Minus(parts, done), key) {
      var i :| 0 <= i < |parts| && key in Minus(parts, done)[i];
      assert key in parts[i];
    }
  }

  lemma MinusTwice<K, V>(parts: seq<Sdb<K, V>>, done: set<K>, key: K)
    ensures Minus(Minus(parts, done), {key}) == Minus(parts, done + {key})
  {
    forall i | 0 <= i < |parts| ensures Minus(Minus(parts, done), {key})[i] == Minus(parts, done + {key})[i] {
    }
  }

  /** The first key of all. */
  ghost predicate First<K(!new), V>(less: (K, K) -> bool, parts: seq<Sdb<K, V>>, key: K) {
    Has(parts, key) && forall k :: Has(parts, k) && k != key ==> Lt(less, key, k)
  }

  lemma {:induction false} LeastExists<K(!new)>(less: (K, K) -> bool, keys: set<K>) returns (key: K)
    requires Total(less) && keys != {}
    ensures key in keys && forall k :: k in keys && k != key ==> Lt(less, key, k)
    decreases |keys|
  {
    var some :| some in keys;
    var others := keys - {some};
    key := some;
    if others == {} {
      forall k | k in keys ensures k == some {
        assert k !in others;
      }
    } else {
      var least := LeastExists(less, others);
      key := if Lt(less, some, least) then some else least;
      forall k | k in keys && k != key ensures Lt(less, key, k) {
        assert k == some || k in others;
        assert Lt(less, some, least) || Lt(less, least, some);
      }
    }
  }

  /** get at the beginning of what remains of a partition. */
  method FirstKey<K(==, !new), V>(less: (K, K) -> bool, sdb: Sdb<K, V>) returns (key: K)
    requires Total(less) && sdb != map[]
    ensures key in sdb && forall k :: k in sdb && k != key ==> Lt(less, key, k)
  {
    ghost var least := LeastExists(less, sdb.Keys);
    key :| key in sdb && forall k :: k in sdb && k != key ==> Lt(less, key, k);
  }
}

/** MultiSDBCursor: a k-way merge over partitions that combines the tags of equal keys. */
module HdbCursor {
  import opened HdbTags
  import opened HdbParts

  datatype Outcome = Moved | AtEnd | Threw

  /** What is left of every partition behind its own cursor is kept in rest. */
  class MultiCursor<K(==, !new), V(!new)> {
    const less: (K, K) -> bool
    const sum: Sum<V>
    const noKey: K
    var rest: seq<Sdb<K, V>>
    var key: K
    var tag: Tag<V>
    var toEnd: bool

    constructor (less: (K, K) -> bool, sum: Sum<V>, parts: seq<Sdb<K, V>>, noKey: K)
      ensures this.less == less && this.sum == sum && rest == parts && !toEnd
    {
      this.less, this.sum, this.noKey := less, sum, noKey;
      rest, key, tag, toEnd := parts, noKey, Delete, false;
    }

    /** hit is the first key among the first n partitions, idx the first of them that has it. */
    ghost predicate Selected(n: nat, idx: int, hit: K, dup: bool)
      requires n <= |rest|
      reads this
    {
      if idx == -1 then !dup && forall i :: 0 <= i < n ==> rest[i] == map[]
      else
        && 0 <= idx < n && hit in rest[idx]
        && (forall i :: 0 <= i < idx ==> hit !in rest[i])
        && (forall i, k :: 0 <= i < n && k in rest[i] && k != hit ==> Lt(less, hit, k))
        && (dup <==> exists i :: idx < i < n && hit in rest[i])
    }

    /** One turn of the selection. */
    lemma SelectTurn(i: nat, idx: int, hit: K, dup: bool, k: K)
      requires Total(less) && i < |rest| && Selected(i, idx, hit, dup)
      requires k in rest[i] && forall j :: j in rest[i] && j != k ==> Lt(less, k, j)
      ensures if idx == -1 || Lt(less, k, hit) then Selected(i + 1, i, k, false)
              else Selected(i + 1, idx, hit, dup || k == hit)
    {
      if idx == -1 {
      } else if Lt(less, k, hit) {
        forall j, k' | 0 <= j < i && k' in rest[j] ensures k' != k && Lt(less, k, k') {
          assert k' == hit || Lt(less, hit, k');
        }
        forall j | 0 <= j < i ensures k !in rest[j] {
          assert k in rest[j] ==> k == hit || Lt(less, hit, k);
        }
      } else if k == hit {
        assert idx < i && hit in rest[i];
      } else {
        assert Lt(less, hit, k);
        assert hit !in rest[i];
      }
    }

    method Select() returns (idx: int, hit: K, dup: bool)
      requires Total(less)
      ensures Selected(|rest|, idx, hit, dup)
    {
      idx, hit, dup := -1, key, false;
      for i := 0 to |rest|
        invariant Selected(i, idx, hit, dup)
      {
        if rest[i] != map[] {
          var k := FirstKey(less, rest[i]);
          SelectTurn(i, idx, hit, dup, k);
          if idx == -1 || Lt(less, k, hit) {
            idx, hit, dup := i, k, false;
          } else if k == hit {
            dup := true;
          }
        }
      }
    }

    lemma SelectedFirst(idx: int, hit: K, dup: bool)
      requires Selected(|rest|, idx, hit, dup)
      ensures idx == -1 ==> forall k :: !Has(rest, k)
      ensures idx != -1 ==> First(less, rest, hit)
    {
      if idx != -1 {
        assert hit in rest[idx];
      }
    }

    /** Without a duplicate the key has one tag, and every other partition is as if it were removed there. */
    lemma {:induction false} OneTag(idx: int, hit: K, n: nat)
      requires 0 <= idx < |rest| && n <= |rest| && hit in rest[idx]
      requires forall i :: 0 <= i < |rest| && i != idx ==> hit !in rest[i]
      ensures TagsOf(rest[..n], hit) == if idx < n then [rest[idx][hit]] else []
      decreases n
    {
      if n > 0 {
        OneTag(idx, hit, n - 1);
        TagsNext(rest, n - 1, hit);
      }
    }

    /** Combines the tags of the key from partition idx on, and moves on there. */
    method CombineFrom(idx: nat, hit: K) returns (c: Combining<V>)
      requires idx < |rest| && forall i :: 0 <= i < idx ==> hit !in rest[i]
      modifies this`rest
      ensures c == Combine(sum, TagsOf(old(rest), hit))
      ensures c.Failed? <==> Conflicting(TagsOf(old(rest), hit))
      ensures !c.Failed? ==> rest == Minus(old(rest), {hit})
    {
      c := Fresh(sum);
      FailsExactly(sum, TagsOf(rest, hit));
      var i := idx;
      ghost var parts := rest;
      NoTags(parts[..idx], hit);
      forall j | 0 <= j < idx ensures rest[j] == rest[j] - {hit} {
        Untouched(rest[j], hit);
      }
      while i < |rest|
        invariant idx <= i <= |rest| == |parts|
        invariant c == Combine(sum, TagsOf(parts[..i], hit)) && !c.Failed?
        invariant MovedOn(parts, rest, i, hit)
      {
        CombineTurn(parts, i, hit);
        if hit in rest[i] {
          c := Take(sum, c, rest[i][hit]);
          if c.Failed? {
            FailsLater(parts, i + 1, hit);
            return;
          }
        }
        MovedNext(parts, rest, i, hit);
        if hit in rest[i] {
          rest := rest[i := rest[i] - {hit}];
        }
        i := i + 1;
      }
      assert parts[..|parts|] == parts;
    }

    /** The first i cursors have left the key behind. */
    ghost predicate MovedOn(parts: seq<Sdb<K, V>>, now: seq<Sdb<K, V>>, i: nat, hit: K) {
      && i <= |now| == |parts|
      && (forall j :: 0 <= j < i ==> now[j] == parts[j] - {hit})
      && (forall j :: i <= j < |now| ==> now[j] == parts[j])
    }

    lemma MovedNext(parts: seq<Sdb<K, V>>, now: seq<Sdb<K, V>>, i: nat, hit: K)
      requires i < |now| && MovedOn(parts, now, i, hit)
      ensures MovedOn(parts, if hit in now[i] then now[i := now[i] - {hit}] else now, i + 1, hit)
    {
      if hit !in now[i] {
        Untouched(now[i], hit);
      }
    }

    lemma CombineTurn(parts: seq<Sdb<K, V>>, i: nat, hit: K)
      requires i < |parts|
      ensures var c := Combine(sum, TagsOf(parts[..i], hit));
        Combine(sum, TagsOf(parts[..i + 1], hit)) == if hit in parts[i] then Take(sum, c, parts[i][hit]) else c
    {
      TagsNext(parts, i, hit);
      if hit in parts[i] {
        CombineNext(sum, TagsOf(parts[..i], hit), parts[i][hit]);
      } else {
        assert TagsOf(parts[..i + 1], hit) == TagsOf(parts[..i], hit);
      }
    }

    lemma FailsLater(parts: seq<Sdb<K, V>>, i: nat, hit: K)
      requires i <= |parts| && Combine(sum, TagsOf(parts[..i], hit)).Failed?
      ensures Combine(sum, TagsOf(parts, hit)).Failed?
    {
      TagsConcat(parts[..i], parts[i..], hit);
      assert parts[..i] + parts[i..] == parts;
      CombineConcat(sum, TagsOf(parts[..i], hit), TagsOf(parts[i..], hit));
    }

    lemma NoTags(parts: seq<Sdb<K, V>>, hit: K)
      requires forall i :: 0 <= i < |parts| ==> hit !in parts[i]
      ensures TagsOf(parts, hit) == []
    {
      TagsEmpty(parts, hit);
    }

    /**
      Moves to the first remaining key, with the combination of all its tags, and leaves
      the others.
     */
    method Next() returns (outcome: Outcome)
      requires Total(less) && Monoid(sum)
      modifies this
      ensures outcome == AtEnd <==> forall k :: !Has(old(rest), k)
      ensures outcome == AtEnd ==> rest == old(rest)
      ensures outcome == Moved ==> First(less, old(rest), key) && rest == Minus(old(rest), {key})
      ensures outcome == Moved ==>
        var c := Combine(sum, TagsOf(old(rest), key)); !c.Failed? && tag == Finish(c)
      ensures outcome == Threw ==> exists k :: First(less, old(rest), k) && Combine(sum, TagsOf(old(rest), k)).Failed?
      ensures toEnd == if outcome == Threw then old(toEnd) else outcome == AtEnd
    {
      var idx, hit, dup := Select();
      SelectedFirst(idx, hit, dup);
      if !dup {
        if idx == -1 {
          key, tag, toEnd := noKey, Delete, true;
          return AtEnd;
        }
        OneTag(idx, hit, |rest|);
        assert rest[..|rest|] == rest;
        CombineOne(sum, rest[idx][hit]);
        key, tag := hit, rest[idx][hit];
        forall i | 0 <= i < |rest| && i != idx ensures rest[i] == rest[i] - {hit} {
          Untouched(rest[i], hit);
        }
        assert rest[idx := rest[idx] - {hit}] == Minus(rest, {hit});
        rest := rest[idx := rest[idx] - {hit}];
        toEnd := false;
        return Moved;
      }
      var c := CombineFrom(idx, hit);
      if c.Failed? {
        return Threw;
      }
      key, tag, toEnd := hit, Finish(c), false;
      return Moved;
    }
  }
}

/** Draining a cursor: the loop by which merge and optimize write the new partition. */
module HdbMerging {
  import opened HdbTags
  import opened HdbParts
  import opened HdbCursor

  /** key has tags, and they combine. */
  ghost predicate Combines<K, V>(sum: Sum<V>, parts: seq<Sdb<K, V>>, key: K) {
    !Combine(sum, TagsOf(parts, key)).Failed?
  }

  ghost function Combined<K, V>(sum: Sum<V>, parts: seq<Sdb<K, V>>, key: K): Tag<V>
    requires Combines(sum, parts, key)
  {
    Finish(Combine(sum, TagsOf(parts, key)))
  }

  /** No key has a delta that meets an insert. */
  ghost predicate NoConflicts<K(!new), V>(parts: seq<Sdb<K, V>>) {
    forall k :: !Conflicting(TagsOf(parts, k))
  }

  lemma NoConflictsCombine<K(!new), V>(sum: Sum<V>, parts: seq<Sdb<K, V>>)
    ensures NoConflicts(parts) <==> forall k :: Has(parts, k) ==> Combines(sum, parts, k)
  {
    forall k ensures Conflicting(TagsOf(parts, k)) <==> Has(parts, k) && !Combines(sum, parts, k) {
      FailsExactly(sum, TagsOf(parts, k));
      TagsEmpty(parts, k);
    }
  }

  /** The new partition has the combined tags, but optionally not those that are deletions. */
  ghost predicate IsMerged<K(!new), V>(sum: Sum<V>, parts: seq<Sdb<K, V>>, drop: bool, dst: Sdb<K, V>) {
    && (forall k :: Has(parts, k) ==> Combines(sum, parts, k))
    && (forall k :: k in dst ==> Has(parts, k) && Combines(sum, parts, k) && dst[k] == Combined(sum, parts, k))
    && (forall k :: Has(parts, k) && k !in dst ==> drop && Combined(sum, parts, k) == Delete)
    && (drop ==> forall k :: k in dst ==> dst[k] != Delete)
  }

  ghost function Members<K>(visited: seq<K>): set<K> {
    set k | k in visited
  }

  ghost predicate Ascending<K(!new)>(less: (K, K) -> bool, visited: seq<K>) {
    forall i, j :: 0 <= i < j < |visited| ==> Lt(less, visited[i], visited[j])
  }

  /** The visited keys ascend and precede all others. */
  ghost predicate Visited<K(!new), V>(less: (K, K) -> bool, parts: seq<Sdb<K, V>>, visited: seq<K>) {
    && Ascending(less, visited)
    && (forall k :: k in visited ==> Has(parts, k))
    && (forall v, k :: v in visited && Has(parts, k) && k !in visited ==> Lt(less, v, k))
  }

  /** dst is right for the visited keys. */
  ghost predicate Written<K(!new), V>(sum: Sum<V>, parts: seq<Sdb<K, V>>, drop: bool, dst: Sdb<K, V>, visited: seq<K>) {
    && (forall k :: k in visited ==> Combines(sum, parts, k))
    && (forall k :: k in dst ==> k in visited && Combines(sum, parts, k) && dst[k] == Combined(sum, parts, k))
    && (forall k :: k in visited && k !in dst ==> drop && Combined(sum, parts, k) == Delete)
    && (drop ==> forall k :: k in dst ==> dst[k] != Delete)
  }

  ghost predicate Half<K(!new), V>(less: (K, K) -> bool, sum: Sum<V>, parts: seq<Sdb<K, V>>, drop: bool,
      dst: Sdb<K, V>, visited: seq<K>) {
    Visited(less, parts, visited) && Written(sum, parts, drop, dst, visited)
  }

  lemma VisitedNext<K(!new), V(!new)>(less: (K, K) -> bool, parts: seq<Sdb<K, V>>, visited: seq<K>, key: K)
    requires Total(less) && Visited(less, parts, visited) && First(less, Minus(parts, Members(visited)), key)
    ensures key !in visited && Has(parts, key) && Visited(less, parts, visited + [key])
  {
    MinusKeys(parts, Members(visited), key);
    forall k | Has(parts, k) && k !in visited + [key] ensures Lt(less, key, k) {
      MinusKeys(parts, Members(visited), k);
    }
  }

  lemma WrittenNext<K(!new), V(!new)>(sum: Sum<V>, parts: seq<Sdb<K, V>>, drop: bool, dst: Sdb<K, V>, visited: seq<K>,
      key: K, tag: Tag<V>)
    requires Written(sum, parts, drop, dst, visited) && key !in visited
    requires Combines(sum, parts, key) && tag == Combined(sum, parts, key)
    ensures Written(sum, parts, drop, if drop && tag == Delete then dst else dst[key := tag], visited + [key])
  {
  }

  lemma HalfNext<K(!new), V(!new)>(less: (K, K) -> bool, sum: Sum<V>, parts: seq<Sdb<K, V>>, drop: bool,
      dst: Sdb<K, V>, visited: seq<K>, key: K, tag: Tag<V>)
    requires Total(less) && Half(less, sum, parts, drop, dst, visited)
    requires var rest := Minus(parts, Members(visited));
      First(less, rest, key) && Combines(sum, rest, key) && tag == Combined(sum, rest, key)
    ensures key !in dst
    ensures Half(less, sum, parts, drop, if drop && tag == Delete then dst else dst[key := tag], visited + [key])
  {
    VisitedNext(less, parts, visited, key);
    MinusKeys(parts, Members(visited), key);
    WrittenNext(sum, parts, drop, dst, visited, key, tag);
  }

  /** The total number of records, which every move of the cursor lowers. */
  ghost function Size<K, V>(parts: seq<Sdb<K, V>>): nat {
    if parts == [] then 0 else |parts[0]| + Size(parts[1..])
  }

  lemma {:induction false} SizeLess<K, V>(parts: seq<Sdb<K, V>>, key: K)
    ensures Size(Minus(parts, {key})) <= Size(parts)
    ensures Has(parts, key) ==> Size(Minus(parts, {key})) < Size(parts)
  {
    if parts != [] {
      var m := Minus(parts, {key});
      assert m[1..] == Minus(parts[1..], {key});
      SizeLess(parts[1..], key);
      assert parts[0].Keys - {key} == m[0].Keys;
      assert |m[0].Keys| <= |parts[0].Keys|;
      if Has(parts, key) {
        var i :| 0 <= i < |parts| && key in parts[i];
        assert i > 0 ==> key in parts[1..][i - 1];
      }
    }
  }

  lemma HalfIsAll<K(!new), V(!new)>(less: (K, K) -> bool, sum: Sum<V>, parts: seq<Sdb<K, V>>, drop: bool,
      dst: Sdb<K, V>, visited: seq<K>)
    requires Half(less, sum, parts, drop, dst, visited)
    requires forall k :: !Has(Minus(parts, Members(visited)), k)
    ensures IsMerged(sum, parts, drop, dst)
    ensures forall k :: k in visited <==> Has(parts, k)
  {
    forall k | Has(parts, k) ensures k in visited {
      MinusKeys(parts, Members(visited), k);
    }
  }

  /**
    Visits every key of any partition once, in ascending order, and writes its combined
    tag; it throws exactly when the tags of some key do not combine.
   */
  method Drain<K(==, !new), V(==, !new)>(less: (K, K) -> bool, sum: Sum<V>, parts: seq<Sdb<K, V>>, noKey: K, drop: bool)
    returns (ok: bool, dst: Sdb<K, V>, ghost visited: seq<K>)
    requires Total(less) && Monoid(sum)
    ensures ok <==> NoConflicts(parts)
    ensures ok ==> IsMerged(sum, parts, drop, dst)
    ensures ok ==> Ascending(less, visited) && forall k :: k in visited <==> Has(parts, k)
  {
    NoConflictsCombine(sum, parts);
    var cursor := new MultiCursor(less, sum, parts, noKey);
    dst, visited := map[], [];
    NothingMinus(parts);
    assert Members(visited) == {};
    while true
      invariant cursor.less == less && cursor.sum == sum
      invariant cursor.rest == Minus(parts, Members(visited)) && Half(less, sum, parts, drop, dst, visited)
      decreases Size(cursor.rest)
    {
      ghost var rest := cursor.rest;
      var outcome := cursor.Next();
      if outcome == Threw {
        ThrowsFor(less, sum, parts, Members(visited));
        return false, dst, visited;
      }
      if outcome == AtEnd {
        HalfIsAll(less, sum, parts, drop, dst, visited);
        return true, dst, visited;
      }
      HalfNext(less, sum, parts, drop, dst, visited, cursor.key, cursor.tag);
      SizeLess(rest, cursor.key);
      MinusNext(parts, visited, cursor.key);
      if !(drop && cursor.tag == Delete) {
        dst := dst[cursor.key := cursor.tag];
      }
      visited := visited + [cursor.key];
    }
  }

  lemma NothingMinus<K, V>(parts: seq<Sdb<K, V>>)
    ensures Minus(parts, {}) == parts
  {
    forall i | 0 <= i < |parts| ensures Minus(parts, {})[i] == parts[i] {
    }
  }

  lemma MinusNext<K(!new), V>(parts: seq<Sdb<K, V>>, visited: seq<K>, key: K)
    ensures Minus(Minus(parts, Members(visited)), {key}) == Minus(parts, Members(visited + [key]))
  {
    MinusTwice(parts, Members(visited), key);
    assert Members(visited) + {key} == Members(visited + [key]);
  }

  lemma ThrowsFor<K(!new), V(!new)>(less: (K, K) -> bool, sum: Sum<V>, parts: seq<Sdb<K, V>>, done: set<K>)
    requires exists k :: First(less, Minus(parts, done), k) && Combine(sum, TagsOf(Minus(parts, done), k)).Failed?
    ensures exists k :: Has(parts, k) && !Combines(sum, parts, k)
  {
    var k :| First(less, Minus(parts, done), k) && Combine(sum, TagsOf(Minus(parts, done), k)).Failed?;
    MinusKeys(parts, done, k);
  }
}
