/**
  SingleTable: an array of packed buckets, seen from outside as a sequence of tags, four
  to a bucket. Tag 0 means an empty slot.
 */
module TagTable {
  import opened Packing
  import opened CuckooEntries

  /** The tags of the buckets, one after the other. */
  ghost function TagsOf(w: Width, buckets: seq<Bucket>): (t: seq<nat>)
    requires forall i :: 0 <= i < |buckets| ==> Fits(w, buckets[i])
    ensures |t| == 4 * |buckets|
    ensures forall p {:trigger t[p]} :: 0 <= p < |t| ==> t[p] == ReadTag(w, buckets[p / 4], p % 4)
  {
    seq(4 * |buckets|, p requires 0 <= p < 4 * |buckets| => ReadTag(w, buckets[p / 4], p % 4))
  }

  lemma TagsWritten(w: Width, buckets: seq<Bucket>, i: nat, j: nat, t: nat)
    requires forall i :: 0 <= i < |buckets| ==> Fits(w, buckets[i])
    requires i < |buckets| && j < 4
    ensures TagsOf(w, buckets[i := WriteTag(w, buckets[i], j, t)]) == TagsOf(w, buckets)[4 * i + j := t % Base(w)]
    ensures t < Base(w) ==> t % Base(w) == t
  {
    var after := buckets[i := WriteTag(w, buckets[i], j, t)];
    forall p | 0 <= p < 4 * |buckets|
      ensures TagsOf(w, after)[p] == TagsOf(w, buckets)[4 * i + j := t % Base(w)][p]
    {
      ReadWritten(w, buckets[i], j, t, p % 4);
    }
  }

  class SingleTable {
    const width: Width
    const numBuckets: nat
    const buckets: array<Bucket>

    ghost predicate Valid()
      reads buckets
    {
      && buckets.Length == numBuckets
      && forall i :: 0 <= i < numBuckets ==> Fits(width, buckets[i])
    }

    ghost function Tags(): (t: seq<nat>)
      requires Valid()
      reads buckets
      ensures |t| == 4 * numBuckets
      ensures forall p {:trigger t[p]} :: 0 <= p < |t| ==> 0 <= t[p] < Base(width)
    {
      assert forall p {:trigger TagsOf(width, buckets[..])[p]} :: 0 <= p < 4 * numBuckets ==>
        0 <= TagsOf(width, buckets[..])[p] < Base(width) by {
        forall p | 0 <= p < 4 * numBuckets ensures 0 <= TagsOf(width, buckets[..])[p] < Base(width) {
          TagBound(width, buckets[p / 4], p % 4);
        }
      }
      TagsOf(width, buckets[..])
    }

    constructor (width: Width, num: nat)
      ensures Valid() && fresh(buckets) && this.width == width && numBuckets == num
      ensures Tags() == seq(4 * num, _ => 0)
    {
      this.width, numBuckets := width, num;
      var zero: Bucket := seq(BucketBytes(width), _ => 0);
      buckets := new Bucket[num](_ => zero);
      new;
      forall p | 0 <= p < 4 * num ensures Tags()[p] == 0 {
        EmptyBucket(width, buckets[p / 4], p % 4);
      }
    }

    method ReadTag(i: nat, j: nat) returns (t: nat)
      requires Valid() && i < numBuckets && j < 4
      ensures t == Tags()[4 * i + j]
    {
      t := Packing.ReadTag(width, buckets[i], j);
    }

    method WriteTag(i: nat, j: nat, t: nat)
      requires Valid() && i < numBuckets && j < 4
      modifies buckets
      ensures Valid() && Tags() == old(Tags())[4 * i + j := t % Base(width)]
      ensures t < Base(width) ==> Tags() == old(Tags())[4 * i + j := t]
    {
      TagsWritten(width, buckets[..], i, j, t);
      buckets[i] := Packing.WriteTag(width, buckets[i], j, t);
    }

    /** beyond is what lies behind the bucket in memory. */
    method FindTagInBucket(i: nat, tag: nat, beyond: nat) returns (found: bool)
      requires Valid() && i < numBuckets && tag < Base(width)
      ensures found <==> InBucket(Tags(), i, tag)
    {
      found := FindTag(width, buckets[i], beyond, tag);
      FindTagExact(width, buckets[i], beyond, tag);
      assert Tags()[4 * i] == Packing.ReadTag(width, buckets[i], 0);
      assert Tags()[4 * i + 1] == Packing.ReadTag(width, buckets[i], 1);
      assert Tags()[4 * i + 2] == Packing.ReadTag(width, buckets[i], 2);
      assert Tags()[4 * i + 3] == Packing.ReadTag(width, buckets[i], 3);
      forall p | 0 <= p < 4 * numBuckets && p / 4 == i
        ensures Tags()[p] == tag ==> found
      {
        assert p == 4 * i + p % 4;
      }
    }

    method FindTagInBuckets(i1: nat, i2: nat, tag: nat, beyond1: nat, beyond2: nat) returns (found: bool)
      requires Valid() && i1 < numBuckets && i2 < numBuckets && tag < Base(width)
      ensures found <==> InBucket(Tags(), i1, tag) || InBucket(Tags(), i2, tag)
    {
      found := FindTagInBucket(i1, tag, beyond1);
      if !found {
        found := FindTagInBucket(i2, tag, beyond2);
      }
    }

    /** The first slot of the bucket with the given tag, 4 if there is none. */
    method FindSlot(i: nat, tag: nat) returns (j: nat)
      requires Valid() && i < numBuckets
      ensures j <= 4 && (j < 4 ==> Tags()[4 * i + j] == tag)
      ensures forall p :: 4 * i <= p < 4 * i + j ==> Tags()[p] != tag
      ensures j == 4 <==> !InBucket(Tags(), i, tag)
    {
      j := 0;
      while j < 4
        invariant j <= 4 && forall p :: 4 * i <= p < 4 * i + j ==> Tags()[p] != tag
      {
        var t := ReadTag(i, j);
        if t == tag {
          assert (4 * i + j) / 4 == i;
          return;
        }
        j := j + 1;
      }
    }

    /** Clears the first slot of the bucket that has the tag; p is that slot. */
    method DeleteTagFromBucket(i: nat, tag: nat) returns (found: bool, ghost p: nat)
      requires Valid() && i < numBuckets
      modifies buckets
      ensures Valid() && (found <==> InBucket(old(Tags()), i, tag))
      ensures found ==> p < 4 * numBuckets && p / 4 == i && old(Tags())[p] == tag && Tags() == old(Tags())[p := 0]
      ensures !found ==> Tags() == old(Tags())
    {
      var j := FindSlot(i, tag);
      found, p := j < 4, 4 * i + j;
      if found {
        WriteTag(i, j, 0);
      }
    }

    /** Puts the tag in the place of an arbitrary tag of a full bucket. */
    method Kickout(i: nat, tag: nat) returns (oldtag: nat, ghost p: nat)
      requires Valid() && i < numBuckets && 0 < tag < Base(width) && !InBucket(Tags(), i, 0)
      modifies buckets
      ensures Valid() && p < 4 * numBuckets && p / 4 == i && Tags() == old(Tags())[p := tag]
      ensures oldtag == old(Tags())[p] > 0
    {
      var r :| 0 <= r < 4;
      p := 4 * i + r;
      assert p / 4 == i;
      oldtag := ReadTag(i, r);
      WriteTag(i, r, tag);
    }

    /**
      Puts the tag into the first empty slot of the bucket. Without one it fails, but with
      kickout it takes the place of an arbitrary tag of the bucket, which it returns.
     */
    method InsertTagToBucket(i: nat, tag: nat, kickout: bool) returns (ok: bool, oldtag: nat, ghost p: nat)
      requires Valid() && i < numBuckets && 0 < tag < Base(width)
      modifies buckets
      ensures Valid() && (ok <==> InBucket(old(Tags()), i, 0))
      ensures ok || kickout ==> p < 4 * numBuckets && p / 4 == i && Tags() == old(Tags())[p := tag]
      ensures ok ==> old(Tags())[p] == 0
      ensures !ok && kickout ==> oldtag == old(Tags())[p] > 0
      ensures !ok && !kickout ==> Tags() == old(Tags())
    {
      oldtag := 0;
      var j := FindSlot(i, 0);
      ok, p := j < 4, 4 * i + j;
      if ok {
        WriteTag(i, j, tag);
      } else if kickout {
        oldtag, p := Kickout(i, tag);
      }
    }
  }
}
