/** Every step of every thread keeps the slots in their places and the buckets in order. */
module CacheSafety {
  import opened Wrappers
  import opened BucketList
  import opened CacheState
  import opened SlotPlaces

  // ---- one lemma per step ----

  /** The ways of a slot: free, held, owned, held, free; or held and lost. */
  predicate MayMove<T>(p: Place<T>, q: Place<T>) {
    match p
    case Free => q.HeldBy?
    case OwnedBy(_) => q.HeldBy?
    case HeldBy(_) => !q.HeldBy?
    case Lost => false
  }

  ghost predicate MovedOn<T(!new)>(place: seq<Place<T>>, place': seq<Place<T>>) {
    || place' == place
    || exists x, p :: 0 <= x < |place| && place' == place[x := p] && MayMove(place[x], p)
  }

  lemma Moved<T(!new)>(place: seq<Place<T>>, x: int, p: Place<T>) returns (place': seq<Place<T>>)
    requires 0 <= x < |place| && MayMove(place[x], p)
    ensures place' == place[x := p] && MovedOn(place, place')
  {
    place' := place[x := p];
  }

  lemma InsertKeeps<T(!new), K(!new), V(!new)>(hash: K -> nat, s: State<T, K, V>, t: T, key: K, value: V,
      overwrite: bool, s': State<T, K, V>, place: seq<Place<T>>)
    requires Placed(s, place) && Shaped(s) && InsertStep(hash, s, t, key, value, overwrite, s')
    ensures Placed(s', place)
  {
  }

  lemma UnlockKeeps<T(!new), K, V>(s: State<T, K, V>, t: T, b: nat, s': State<T, K, V>)
    requires LocksOk(s.buckets, s.pcs) && t in s.pcs && s.pcs[t].Inserting() && s.pcs[t].bucket == b < |s.buckets|
    requires s' == Unlock(s, t, b)
    ensures LocksOk(s'.buckets, s'.pcs)
  {
  }

  lemma PopKeeps<T(!new), K, V>(s: State<T, K, V>, t: T, s': State<T, K, V>, place: seq<Place<T>>)
      returns (place': seq<Place<T>>)
    requires Placed(s, place) && Shaped(s) && PopStep(s, t, s')
    ensures Placed(s', place')
    ensures MovedOn(place, place')
  {
    var b := s.pcs[t].bucket;
    var i := ListOf(b);
    if s.free[i] == [] {
      place' := place;
      UnlockKeeps(s, t, b, s');
    } else {
      var x := s.free[i][0];
      FreePop(s.free, s.sizes, place, i, HeldBy(t));
      assert FreeIn(place, x, i);
      place' := Moved(place, x, HeldBy(t));
      OwnedFrame(s.buckets, s'.buckets, place, x, HeldBy(t));
      HeldAdd(s.pcs, place, t, s'.pcs[t]);
      LostFrame(s.lost, place, x, HeldBy(t));
      OwnerMoved(s.owner, s.pcs, place, t, s'.pcs, x, HeldBy(t), -1);
    }
  }

  lemma ExchangeKeeps<T(!new), K, V>(s: State<T, K, V>, t: T, ok: bool, s': State<T, K, V>, place: seq<Place<T>>)
      returns (place': seq<Place<T>>)
    requires Placed(s, place) && Shaped(s) && ExchangeStep(s, t, ok, s')
    ensures Placed(s', place')
    ensures MovedOn(place, place')
  {
    var x := s.pcs[t].slot;
    if ok {
      place' := place;
      OwnerMoved(s.owner, s.pcs, place, t, s'.pcs, x, HeldBy(t), s.pcs[t].bucket);
      assert place[x := HeldBy(t)] == place;
    } else {
      place' := Moved(place, x, Lost);
      FreeFrame(s.free, s.sizes, place, x, Lost);
      OwnedFrame(s.buckets, s'.buckets, place, x, Lost);
      HeldRemove(s.pcs, place, t, Lost);
      LostFrame(s.lost, place, x, Lost);
      OwnerMoved(s.owner, s.pcs, place, t, s'.pcs, x, Lost, -1);
      UnlockKeeps(s, t, s.pcs[t].bucket, Unlock(s, t, s.pcs[t].bucket));
    }
  }

  lemma PublishKeeps<T(!new), K, V>(s: State<T, K, V>, t: T, s': State<T, K, V>, place: seq<Place<T>>)
      returns (place': seq<Place<T>>)
    requires Placed(s, place) && Shaped(s) && PublishStep(s, t, s')
    ensures Placed(s', place')
    ensures MovedOn(place, place')
  {
    var x, b := s.pcs[t].slot, s.pcs[t].bucket;
    place' := Moved(place, x, OwnedBy(b));
    FreeFrame(s.free, s.sizes, place, x, OwnedBy(b));
    OwnedAdd(s.buckets, place, b, x, s'.buckets[b]);
    HeldRemove(s.pcs, place, t, OwnedBy(b));
    LostFrame(s.lost, place, x, OwnedBy(b));
    OwnerMoved(s.owner, s.pcs, place, t, s'.pcs, x, OwnedBy(b), b);
  }

  lemma EmptiedKeeps<T(!new), K, V>(s: State<T, K, V>, t: T, b: nat, s': State<T, K, V>, place: seq<Place<T>>)
      returns (place': seq<Place<T>>)
    requires Placed(s, place) && Unlocked(s, t, b) && s' == Emptied(s, t, b)
    ensures Placed(s', place')
    ensures MovedOn(place, place')
  {
    var x := s.buckets[b].info;
    if x == -1 {
      place' := place;
    } else {
      place' := Moved(place, x, HeldBy(t));
      FreeFrame(s.free, s.sizes, place, x, HeldBy(t));
      OwnedRemove(s.buckets, place, b, Bucket([], -1, None), HeldBy(t));
      HeldAdd(s.pcs, place, t, Returning(x));
      LostFrame(s.lost, place, x, HeldBy(t));
      OwnerMoved(s.owner, s.pcs, place, t, s'.pcs, x, HeldBy(t), -1);
    }
  }

  lemma GiveBackKeeps<T(!new), K, V>(s: State<T, K, V>, t: T, s': State<T, K, V>, place: seq<Place<T>>)
      returns (place': seq<Place<T>>)
    requires Placed(s, place) && Shaped(s) && GiveBackStep(s, t, s')
    ensures Placed(s', place')
    ensures MovedOn(place, place')
  {
    var x := s.pcs[t].slot;
    place' := Moved(place, x, Free);
    FreePush(s.free, s.sizes, place, x);
    OwnedFrame(s.buckets, s'.buckets, place, x, Free);
    HeldRemove(s.pcs, place, t, Free);
    LostFrame(s.lost, place, x, Free);
    OwnerMoved(s.owner, s.pcs, place, t, s'.pcs, x, Free, -1);
  }

  lemma RemoveKeeps<T(!new), K(!new), V(!new)>(hash: K -> nat, s: State<T, K, V>, t: T, key: K, s': State<T, K, V>,
      place: seq<Place<T>>) returns (place': seq<Place<T>>)
    requires Placed(s, place) && Shaped(s) && RemoveStep(hash, s, t, key, s')
    ensures Placed(s', place')
    ensures MovedOn(place, place')
  {
    var b := BucketOf(hash, |s.buckets|, key);
    if s'.buckets[b].items == [] {
      place' := EmptiedKeeps(s, t, b, s', place);
    } else {
      place' := place;
    }
  }

  // ---- all steps ----

  lemma StepKeepsPlaces<T(!new), K(!new), V(!new)>(hash: K -> nat, s: State<T, K, V>, step: Step<T, K, V>,
      s': State<T, K, V>, place: seq<Place<T>>) returns (place': seq<Place<T>>)
    requires Placed(s, place) && Next(hash, s, step, s')
    ensures Placed(s', place') && MovedOn(place, place')
  {
    place' := place;
    match step
    case Insert(t, key, value, overwrite) => InsertKeeps(hash, s, t, key, value, overwrite, s', place);
    case Pop(t) => place' := PopKeeps(s, t, s', place);
    case Exchange(t, ok) => place' := ExchangeKeeps(s, t, ok, s', place);
    case Publish(t) => place' := PublishKeeps(s, t, s', place);
    case Get(t, key) =>
    case Remove(t, key) => place' := RemoveKeeps(hash, s, t, key, s', place);
    case Clear(t, b) =>
      if b < |s.buckets| {
        place' := EmptiedKeeps(s, t, b, s', place);
      }
    case GiveBack(t) => place' := GiveBackKeeps(s, t, s', place);
  }
}
