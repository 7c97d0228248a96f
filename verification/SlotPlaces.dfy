/**
  Where the access-info slots are. place gives every slot one place; each part of the
  state agrees with it in both directions.
 */
module SlotPlaces {
  import opened Wrappers
  import opened BucketList
  import opened CacheState

  datatype Place<T> = Free | OwnedBy(bucket: nat) | HeldBy(thread: T) | Lost

  // ---- the parts of the invariant ----

  ghost predicate FreeIn<T>(place: seq<Place<T>>, x: int, i: nat) {
    0 <= x < |place| && place[x] == Free && ListOf(x) == i
  }

  ghost predicate ListOk<T>(list: seq<int>, i: nat, place: seq<Place<T>>) {
    NoRepeat(list) && forall x :: x in list <==> FreeIn(place, x, i)
  }

  ghost predicate FreeOk<T>(free: seq<seq<int>>, sizes: seq<int>, place: seq<Place<T>>) {
    && |free| == |sizes| == FREE_LISTS
    && forall i :: 0 <= i < FREE_LISTS ==> sizes[i] == |free[i]| && ListOk(free[i], i, place)
  }

  ghost predicate OwnedOk<T, K, V>(buckets: seq<Bucket<T, K, V>>, place: seq<Place<T>>) {
    && (forall b :: 0 <= b < |buckets| && buckets[b].info != -1 ==>
          0 <= buckets[b].info < |place| && place[buckets[b].info] == OwnedBy(b) &&
            ListOf(buckets[b].info) == ListOf(b))
    && (forall x :: 0 <= x < |place| && place[x].OwnedBy? ==>
          place[x].bucket < |buckets| && buckets[place[x].bucket].info == x)
  }

  ghost predicate HeldOk<T(!new), K, V>(pcs: map<T, Pc<K, V>>, place: seq<Place<T>>) {
    && (forall t :: t in pcs && !pcs[t].Popping? ==> 0 <= pcs[t].slot < |place| && place[pcs[t].slot] == HeldBy(t))
    && (forall x :: 0 <= x < |place| && place[x].HeldBy? ==>
          place[x].thread in pcs && pcs[place[x].thread].Holds(x))
  }

  ghost predicate LostOk<T>(lost: set<int>, place: seq<Place<T>>) {
    forall x :: x in lost <==> 0 <= x < |place| && place[x] == Lost
  }

  /** What item_cache_index must be. */
  ghost function OwnerAt<T, K, V>(pcs: map<T, Pc<K, V>>, p: Place<T>): int {
    match p
    case OwnedBy(b) => b
    case HeldBy(t) => if t in pcs && pcs[t].Publishing? then pcs[t].bucket else -1
    case Free => -1
    case Lost => -1
  }

  ghost predicate OwnerOk<T, K, V>(owner: seq<int>, pcs: map<T, Pc<K, V>>, place: seq<Place<T>>) {
    |owner| == |place| && forall x :: 0 <= x < |place| ==> owner[x] == OwnerAt(pcs, place[x])
  }

  /** A thread inserts exactly into the bucket it has locked, which is empty meanwhile. */
  ghost predicate LocksOk<T(!new), K, V>(buckets: seq<Bucket<T, K, V>>, pcs: map<T, Pc<K, V>>) {
    && (forall b :: 0 <= b < |buckets| && buckets[b].writer.Some? ==>
          var t := buckets[b].writer.value; t in pcs && pcs[t].Inserting() && pcs[t].bucket == b)
    && (forall t :: t in pcs && pcs[t].Inserting() ==>
          && pcs[t].bucket < |buckets| && buckets[pcs[t].bucket].writer == Some(t) && buckets[pcs[t].bucket].info == -1
          && (!pcs[t].Popping? ==> ListOf(pcs[t].slot) == ListOf(pcs[t].bucket)))
  }

  ghost predicate Placed<T(!new), K, V>(s: State<T, K, V>, place: seq<Place<T>>) {
    && |s.buckets| > 0
    && FreeOk(s.free, s.sizes, place) && OwnedOk(s.buckets, place) && HeldOk(s.pcs, place)
    && LostOk(s.lost, place) && OwnerOk(s.owner, s.pcs, place) && LocksOk(s.buckets, s.pcs)
  }

  // ---- moving one slot ----

  lemma ListFrame<T>(list: seq<int>, i: nat, place: seq<Place<T>>, x: int, p: Place<T>)
    requires ListOk(list, i, place) && 0 <= x < |place|
    requires (place[x] != Free && p != Free) || ListOf(x) != i
    ensures ListOk(list, i, place[x := p])
  {
    forall y ensures y in list <==> FreeIn(place[x := p], y, i) {
      assert y in list <==> FreeIn(place, y, i);
    }
  }

  lemma FreeFrame<T>(free: seq<seq<int>>, sizes: seq<int>, place: seq<Place<T>>, x: int, p: Place<T>)
    requires FreeOk(free, sizes, place) && 0 <= x < |place| && place[x] != Free && p != Free
    ensures FreeOk(free, sizes, place[x := p])
  {
    forall i | 0 <= i < FREE_LISTS ensures ListOk(free[i], i, place[x := p]) {
      ListFrame(free[i], i, place, x, p);
    }
  }

  lemma ListPop<T>(list: seq<int>, i: nat, place: seq<Place<T>>, p: Place<T>)
    requires ListOk(list, i, place) && list != [] && p != Free
    ensures FreeIn(place, list[0], i) && ListOk(list[1..], i, place[list[0] := p])
  {
    var x, tail := list[0], list[1..];
    assert x in list;
    forall y ensures y in tail <==> FreeIn(place[x := p], y, i) {
      assert y in list <==> FreeIn(place, y, i);
      if y in list && y != x {
        var j :| 0 <= j < |list| && list[j] == y;
        assert tail[j - 1] == y;
      }
    }
  }

  lemma FreePop<T>(free: seq<seq<int>>, sizes: seq<int>, place: seq<Place<T>>, i: nat, p: Place<T>)
    requires FreeOk(free, sizes, place) && i < FREE_LISTS && free[i] != [] && p != Free
    ensures FreeIn(place, free[i][0], i)
    ensures FreeOk(free[i := free[i][1..]], sizes[i := sizes[i] - 1], place[free[i][0] := p])
  {
    var x := free[i][0];
    ListPop(free[i], i, place, p);
    forall j | 0 <= j < FREE_LISTS && j != i ensures ListOk(free[j], j, place[x := p]) {
      ListFrame(free[j], j, place, x, p);
    }
  }

  lemma ListPush<T>(list: seq<int>, place: seq<Place<T>>, x: int)
    requires ListOk(list, ListOf(x), place) && 0 <= x < |place| && place[x] != Free
    ensures ListOk(list + [x], ListOf(x), place[x := Free])
  {
    var i := ListOf(x);
    assert x in list <==> FreeIn(place, x, i);
    forall y ensures y in list + [x] <==> FreeIn(place[x := Free], y, i) {
      assert y in list <==> FreeIn(place, y, i);
    }
  }

  lemma FreePush<T>(free: seq<seq<int>>, sizes: seq<int>, place: seq<Place<T>>, x: int)
    requires FreeOk(free, sizes, place) && 0 <= x < |place| && place[x] != Free
    ensures var i := ListOf(x);
      FreeOk(free[i := free[i] + [x]], sizes[i := sizes[i] + 1], place[x := Free])
  {
    var i := ListOf(x);
    ListPush(free[i], place, x);
    forall j | 0 <= j < FREE_LISTS && j != i ensures ListOk(free[j], j, place[x := Free]) {
      ListFrame(free[j], j, place, x, Free);
    }
  }

  lemma OwnedFrame<T, K, V>(buckets: seq<Bucket<T, K, V>>, buckets': seq<Bucket<T, K, V>>, place: seq<Place<T>>,
      x: int, p: Place<T>)
    requires OwnedOk(buckets, place) && 0 <= x < |place| && !place[x].OwnedBy? && !p.OwnedBy?
    requires |buckets'| == |buckets| && forall b :: 0 <= b < |buckets| ==> buckets'[b].info == buckets[b].info
    ensures OwnedOk(buckets', place[x := p])
  {
  }

  lemma OwnedAdd<T, K, V>(buckets: seq<Bucket<T, K, V>>, place: seq<Place<T>>, b: nat, x: int, item: Bucket<T, K, V>)
    requires OwnedOk(buckets, place) && b < |buckets| && buckets[b].info == -1
    requires 0 <= x < |place| && !place[x].OwnedBy? && item.info == x && ListOf(x) == ListOf(b)
    ensures OwnedOk(buckets[b := item], place[x := OwnedBy(b)])
  {
  }

  lemma OwnedRemove<T, K, V>(buckets: seq<Bucket<T, K, V>>, place: seq<Place<T>>, b: nat, item: Bucket<T, K, V>,
      p: Place<T>)
    requires OwnedOk(buckets, place) && b < |buckets| && buckets[b].info != -1 && item.info == -1 && !p.OwnedBy?
    ensures 0 <= buckets[b].info < |place| && OwnedOk(buckets[b := item], place[buckets[b].info := p])
  {
  }

  /** A thread without a slot takes one up. */
  lemma HeldAdd<T(!new), K, V>(pcs: map<T, Pc<K, V>>, place: seq<Place<T>>, t: T, pc: Pc<K, V>)
    requires HeldOk(pcs, place) && (t in pcs ==> pcs[t].Popping?)
    requires !pc.Popping? && 0 <= pc.slot < |place| && !place[pc.slot].HeldBy?
    ensures HeldOk(pcs[t := pc], place[pc.slot := HeldBy(t)])
  {
  }

  /** A thread lays down its slot. */
  lemma HeldRemove<T(!new), K, V>(pcs: map<T, Pc<K, V>>, place: seq<Place<T>>, t: T, p: Place<T>)
    requires HeldOk(pcs, place) && t in pcs && !pcs[t].Popping? && !p.HeldBy?
    ensures 0 <= pcs[t].slot < |place| && HeldOk(pcs - {t}, place[pcs[t].slot := p])
  {
  }

  lemma LostFrame<T>(lost: set<int>, place: seq<Place<T>>, x: int, p: Place<T>)
    requires LostOk(lost, place) && 0 <= x < |place| && place[x] != Lost
    ensures LostOk(if p == Lost then lost + {x} else lost, place[x := p])
  {
  }

  /** One slot moves, one thread's pc changes. */
  lemma OwnerMoved<T(!new), K, V>(owner: seq<int>, pcs: map<T, Pc<K, V>>, place: seq<Place<T>>, t: T,
      pcs': map<T, Pc<K, V>>, x: int, p: Place<T>, o: int)
    requires OwnerOk(owner, pcs, place) && HeldOk(pcs, place) && 0 <= x < |place|
    requires forall u :: u != t ==> (u in pcs' <==> u in pcs) && (u in pcs ==> pcs'[u] == pcs[u])
    requires t in pcs ==> pcs[t].Popping? || pcs[t].slot == x
    requires o == OwnerAt(pcs', p)
    ensures OwnerOk(owner[x := o], pcs', place[x := p])
  {
  }
}
