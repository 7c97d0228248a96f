/** Bags of optional elements. */
module Bags {
  import opened Wrappers

  ghost function Single<T>(x: Option<T>): multiset<T> {
    if x.None? then multiset{} else multiset{x.value}
  }

  ghost function Bag<T>(s: seq<Option<T>>): multiset<T> {
    if s == [] then multiset{} else Single(s[0]) + Bag(s[1..])
  }

  lemma Exchange<T>(a: multiset<T>, b: multiset<T>, x: multiset<T>, c: multiset<T>, y: multiset<T>)
    requires b + x == c + y
    ensures (a + b) + x == (a + c) + y
  {
    assert (a + b) + x == a + (b + x);
    assert (a + c) + y == a + (c + y);
  }

  lemma SameSize<T>(a: multiset<T>, x: T, b: multiset<T>, y: T)
    requires a + multiset{x} == b + multiset{y}
    ensures |a| == |b|
  {
    assert |a + multiset{x}| == |a| + 1;
    assert |b + multiset{y}| == |b| + 1;
  }

  lemma {:induction false} BagUpdated<T>(s: seq<Option<T>>, p: nat, x: Option<T>)
    requires p < |s|
    ensures Bag(s[p := x]) + Single(s[p]) == Bag(s) + Single(x)
  {
    if p == 0 {
      assert s[p := x][1..] == s[1..];
    } else {
      assert s[p := x][1..] == s[1..][p - 1 := x];
      BagUpdated(s[1..], p - 1, x);
      assert s[1..][p - 1] == s[p] && s[p := x][0] == s[0];
      Exchange(Single(s[0]), Bag(s[1..][p - 1 := x]), Single(s[p]), Bag(s[1..]), Single(x));
    }
  }

  lemma {:induction false} BagMember<T>(s: seq<Option<T>>, x: T)
    ensures x in Bag(s) <==> Some(x) in s
  {
    if s != [] {
      BagMember(s[1..], x);
    }
  }

  /** All places of x from k on are in a set. */
  lemma {:induction false} BagCount<T>(s: seq<Option<T>>, x: T, places: set<nat>, k: nat)
    requires k <= |s| && forall p :: k <= p < |s| && s[p] == Some(x) ==> p in places
    ensures Bag(s[k..])[x] <= |places|
    decreases |s| - k
  {
    if k < |s| {
      assert s[k..][1..] == s[k + 1..] && s[k..][0] == s[k];
      if s[k] == Some(x) {
        BagCount(s, x, places - {k}, k + 1);
      } else {
        BagCount(s, x, places, k + 1);
      }
    }
  }

  lemma {:induction false} BagEmpty<T>(s: seq<Option<T>>)
    requires forall i :: 0 <= i < |s| ==> s[i].None?
    ensures Bag(s) == multiset{}
  {
    if s != [] {
      BagEmpty(s[1..]);
    }
  }
}

/**
  What a cuckoo table holds. A stored tag stands for itself and the pair of buckets it
  may live in; the pair is the same seen from either bucket because the alternate index
  is its own inverse.
 */
module CuckooEntries {
  import opened Wrappers
  import opened Bits
  import opened Bags

  // ---- the alternate bucket ----

  const HASH_CONSTANT := 0x5bd1e995

  /** (uint32_t) (index ^ (tag * 0x5bd1e995)) % n, in 32-bit arithmetic. */
  function AltIndex(n: nat, index: nat, tag: nat): (r: nat)
    requires n > 0
    ensures r < n
  {
    Xor(index, tag * HASH_CONSTANT % Pow2(32)) % Pow2(32) % n
  }

  /** On a power of two of buckets, only the low bits of the multiplier matter. */
  lemma AltIndexLow(k: nat, index: nat, tag: nat)
    requires k <= 32 && index < Pow2(k)
    ensures var m := tag * HASH_CONSTANT % Pow2(32) % Pow2(k);
      0 <= m < Pow2(k) && AltIndex(Pow2(k), index, tag) == Xor(index, m)
  {
    var m := tag * HASH_CONSTANT % Pow2(32);
    var x := Xor(index, m);
    ModSplit(x, 32, k);
    XorLow(index, m, k);
    LowMod(index, k);
    LowMod(m, k);
    LowMod(x, k);
    Remainder(index, Pow2(k), 0, index);
    XorBound(index, m % Pow2(k), k);
  }

  lemma AltIndexInverse(k: nat, index: nat, tag: nat)
    requires k <= 32 && index < Pow2(k)
    ensures AltIndex(Pow2(k), AltIndex(Pow2(k), index, tag), tag) == index
  {
    AltIndexLow(k, index, tag);
    AltIndexLow(k, AltIndex(Pow2(k), index, tag), tag);
    XorCancel(index, tag * HASH_CONSTANT % Pow2(32) % Pow2(k));
  }

  // ---- entries ----

  /** A tag with its pair of buckets, named by the lower of the two. */
  datatype Entry = Entry(bucket: nat, tag: nat)

  function EntryAt(n: nat, index: nat, tag: nat): Entry
    requires n > 0
  {
    var alt := AltIndex(n, index, tag);
    Entry(if index <= alt then index else alt, tag)
  }

  lemma SameEntry(k: nat, index: nat, tag: nat)
    requires k <= 32 && index < Pow2(k)
    ensures EntryAt(Pow2(k), AltIndex(Pow2(k), index, tag), tag) == EntryAt(Pow2(k), index, tag)
  {
    AltIndexInverse(k, index, tag);
  }

  /** Two stored tags are the same entry exactly when the tags agree and the buckets form a pair. */
  lemma EntryEqual(k: nat, i1: nat, t1: nat, i2: nat, t2: nat)
    requires k <= 32 && i1 < Pow2(k) && i2 < Pow2(k)
    ensures EntryAt(Pow2(k), i1, t1) == EntryAt(Pow2(k), i2, t2) <==>
      t1 == t2 && (i1 == i2 || i1 == AltIndex(Pow2(k), i2, t2))
  {
    AltIndexInverse(k, i1, t1);
    AltIndexInverse(k, i2, t2);
  }

  // ---- the contents of a table: four slots to a bucket, one after the other ----

  /** A slot with tag 0 is empty. */
  ghost function SlotEntry(n: nat, p: nat, t: nat): Option<Entry>
    requires n > 0
  {
    if t == 0 then None else Some(EntryAt(n, p / 4, t))
  }

  ghost function Slots(n: nat, tags: seq<nat>): (s: seq<Option<Entry>>)
    requires n > 0
    ensures |s| == |tags| && forall p :: 0 <= p < |tags| ==> s[p] == SlotEntry(n, p, tags[p])
  {
    seq(|tags|, p requires 0 <= p < |tags| => SlotEntry(n, p, tags[p]))
  }

  ghost function Entries(n: nat, tags: seq<nat>): multiset<Entry>
    requires n > 0
  {
    Bag(Slots(n, tags))
  }

  /** Writing one slot exchanges what it held for what it holds. */
  lemma EntriesUpdated(n: nat, tags: seq<nat>, p: nat, t: nat)
    requires n > 0 && p < |tags|
    ensures Entries(n, tags[p := t]) + Single(SlotEntry(n, p, tags[p])) == Entries(n, tags) + Single(SlotEntry(n, p, t))
  {
    assert Slots(n, tags[p := t]) == Slots(n, tags)[p := SlotEntry(n, p, t)];
    BagUpdated(Slots(n, tags), p, SlotEntry(n, p, t));
  }

  /** Bucket i has a slot with tag t. */
  ghost predicate InBucket(tags: seq<nat>, i: nat, t: nat) {
    exists p :: 0 <= p < |tags| && p / 4 == i && tags[p] == t
  }

  /** An entry is held exactly when a slot of one of its two buckets has its tag. */
  lemma EntriesMember(k: nat, tags: seq<nat>, index: nat, tag: nat)
    requires k <= 32 && |tags| == 4 * Pow2(k) && index < Pow2(k) && tag > 0
    ensures EntryAt(Pow2(k), index, tag) in Entries(Pow2(k), tags) <==>
      InBucket(tags, index, tag) || InBucket(tags, AltIndex(Pow2(k), index, tag), tag)
  {
    var n, e, alt := Pow2(k), EntryAt(Pow2(k), index, tag), AltIndex(Pow2(k), index, tag);
    BagMember(Slots(n, tags), e);
    SameEntry(k, index, tag);
    if e in Entries(n, tags) {
      var p :| 0 <= p < |tags| && Slots(n, tags)[p] == Some(e);
      EntryEqual(k, p / 4, tags[p], index, tag);
    }
    if InBucket(tags, index, tag) {
      var p :| 0 <= p < |tags| && p / 4 == index && tags[p] == tag;
      assert Slots(n, tags)[p] == Some(e);
    }
    if InBucket(tags, alt, tag) {
      var p :| 0 <= p < |tags| && p / 4 == alt && tags[p] == tag;
      assert Slots(n, tags)[p] == Some(e);
    }
  }

  ghost function BucketSlots(i: nat): (s: set<nat>)
    ensures |s| <= 4 && forall p: nat :: p / 4 == i ==> p in s
  {
    {4 * i, 4 * i + 1, 4 * i + 2, 4 * i + 3}
  }

  /** Two buckets have eight slots: the table holds an entry at most eight times. */
  lemma AtMostEight(k: nat, tags: seq<nat>, e: Entry)
    requires k <= 32 && |tags| == 4 * Pow2(k)
    ensures Entries(Pow2(k), tags)[e] <= 8
  {
    var s := Slots(Pow2(k), tags);
    BagMember(s, e);
    if e in Bag(s) {
      var p :| 0 <= p < |s| && s[p] == Some(e);
      var i, alt := p / 4, AltIndex(Pow2(k), p / 4, tags[p]);
      var places := BucketSlots(i) + BucketSlots(alt);
      forall q | 0 <= q < |s| && s[q] == Some(e) ensures q in places {
        EntryEqual(k, q / 4, tags[q], i, tags[p]);
      }
      BagCount(s, e, places, 0);
      assert s[0..] == s;
    }
  }
}
