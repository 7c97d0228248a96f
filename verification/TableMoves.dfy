/** The table as a multiset of entries: one move of a kick-out chain, one removal, one search. */
module TableMoves {
  import opened Bits
  import opened Packing
  import opened Bags
  import opened CuckooEntries
  import opened CuckooChain
  import opened TagTable
  import opened PowerSizing

  /** The table is sound and has 2^k buckets. */
  ghost predicate Sized(table: SingleTable, k: nat)
    reads table.buckets
  {
    table.Valid() && k <= 32 && table.numBuckets == Pow2(k)
  }

  /** A tag for a bucket of the table. */
  ghost predicate Proper(table: SingleTable, i: nat, t: nat) {
    i < table.numBuckets && 0 < t < Base(table.width)
  }

  ghost function At(table: SingleTable, i: nat, t: nat): Entry
    requires table.numBuckets > 0
  {
    EntryAt(table.numBuckets, i, t)
  }

  /** What the table holds. */
  ghost function Stored(table: SingleTable): multiset<Entry>
    requires table.Valid() && table.numBuckets > 0
    reads table.buckets
  {
    Entries(table.numBuckets, table.Tags())
  }

  /** A table of any number of buckets, none included. */
  method NewTable(width: Width, n: nat) returns (table: SingleTable)
    ensures fresh(table) && fresh(table.buckets) && table.width == width && table.numBuckets == n && table.Valid()
    ensures n > 0 ==> Stored(table) == multiset{}
  {
    table := new SingleTable(width, n);
    if n > 0 {
      BagEmpty(Slots(n, table.Tags()));
    }
  }

  /** The table of a filter for a number of keys. */
  method TableFor(width: Width, keys: nat) returns (table: SingleTable, ghost k: nat)
    requires keys < Words() && BucketCount(keys) <= Pow2(32)
    ensures fresh(table) && fresh(table.buckets) && table.width == width && table.numBuckets == BucketCount(keys)
    ensures (Sized(table, k) <==> keys >= 4) && (table.numBuckets == 0 <==> keys < 4)
    ensures keys >= 4 ==> Stored(table) == multiset{}
  {
    k := BucketsFromFour(keys);
    table := NewTable(width, BucketCount(keys));
  }

  /** Inserts into bucket i, or else goes on with the tag that has to move and its other bucket. */
  method Move(table: SingleTable, ghost k: nat, i: nat, tag: nat, kickout: bool) returns (ok: bool, i': nat, tag': nat)
    requires Sized(table, k) && Proper(table, i, tag)
    modifies table.buckets
    ensures Sized(table, k) && Proper(table, i', tag')
    ensures ok ==> Stored(table) == old(Stored(table)) + multiset{At(table, i, tag)}
    ensures !ok ==> Stored(table) + multiset{At(table, i', tag')} == old(Stored(table)) + multiset{At(table, i, tag)}
    ensures ok ==> Settles(Hop(old(table.Tags()), i, tag), table.Tags())
    ensures !ok ==> Hops(table.numBuckets, Hop(old(table.Tags()), i, tag), Hop(table.Tags(), i', tag'), kickout)
  {
    ghost var before := table.Tags();
    var oldtag;
    ghost var p;
    ok, oldtag, p := table.InsertTagToBucket(i, tag, kickout);
    tag' := if !ok && kickout then oldtag else tag;
    i' := AltIndex(table.numBuckets, i, tag');
    SameEntry(k, i, tag');
    if ok || kickout {
      EntriesUpdated(table.numBuckets, before, p, tag);
    }
    if ok {
      assert Fills(Hop(before, i, tag), p, table.Tags());
    } else if kickout {
      assert Exchanged(Hop(before, i, tag), p, Hop(table.Tags(), i', tag'));
    }
  }

  const MAX_CUCKOO_COUNT := 500

  /**
    The kick-out chain: whatever tags it moves, one of the tags of all these remains without a
    place, or none. It gives up only after as many moves as are allowed, each from a full bucket.
   */
  method Insert(table: SingleTable, ghost k: nat, i: nat, tag: nat)
      returns (ok: bool, curindex: nat, curtag: nat, ghost chain: seq<Hop>)
    requires Sized(table, k) && Proper(table, i, tag)
    modifies table.buckets
    ensures Sized(table, k) && Proper(table, curindex, curtag)
    ensures ok ==> Stored(table) == old(Stored(table)) + multiset{At(table, i, tag)}
    ensures !ok ==>
      Stored(table) + multiset{At(table, curindex, curtag)} == old(Stored(table)) + multiset{At(table, i, tag)}
    ensures |Stored(table)| == |old(Stored(table))| + if ok then 1 else 0
    ensures Placing(table.numBuckets, Hop(old(table.Tags()), i, tag), chain, ok, Hop(table.Tags(), curindex, curtag))
  {
    ok, curindex, curtag := false, i, tag;
    ghost var start := Hop(table.Tags(), i, tag);
    chain := [start];
    var count := 0;
    while !ok && count < MAX_CUCKOO_COUNT
      invariant Sized(table, k) && Proper(table, curindex, curtag) && count <= MAX_CUCKOO_COUNT
      invariant ok ==> Stored(table) == old(Stored(table)) + multiset{At(table, i, tag)}
      invariant !ok ==>
        Stored(table) + multiset{At(table, curindex, curtag)} == old(Stored(table)) + multiset{At(table, i, tag)}
      invariant Underway(table.numBuckets, start, chain, count, ok, Hop(table.Tags(), curindex, curtag))
      decreases MAX_CUCKOO_COUNT - count
    {
      ok, curindex, curtag := Move(table, k, curindex, curtag, count > 0);
      count := count + 1;
      if !ok {
        ChainNext(table.numBuckets, chain, Hop(table.Tags(), curindex, curtag));
        chain := chain + [Hop(table.Tags(), curindex, curtag)];
      }
    }
    if !ok {
      SameSize(Stored(table), At(table, curindex, curtag), old(Stored(table)), At(table, i, tag));
    }
  }

  /** The chain after a number of attempts. */
  ghost predicate Underway(n: nat, start: Hop, chain: seq<Hop>, count: nat, ok: bool, end: Hop)
    requires n > 0
  {
    && Chain(n, chain) && chain[0] == start && |chain| == (if ok then count else count + 1)
    && if ok then Settles(chain[|chain| - 1], end.tags) else chain[|chain| - 1] == end
  }

  /** Takes the tag out of one of its two buckets, the given one first. */
  method Take(table: SingleTable, ghost k: nat, i: nat, tag: nat) returns (found: bool, ghost p: nat)
    requires Sized(table, k) && Proper(table, i, tag)
    modifies table.buckets
    ensures Sized(table, k) && (found <==> At(table, i, tag) in old(Stored(table)))
    ensures found ==> Stored(table) + multiset{At(table, i, tag)} == old(Stored(table))
    ensures |old(Stored(table))| == |Stored(table)| + if found then 1 else 0
    ensures found ==> Clears(table.numBuckets, old(table.Tags()), i, tag, p, table.Tags())
    ensures !found ==> table.Tags() == old(table.Tags())
  {
    var i' := AltIndex(table.numBuckets, i, tag);
    SameEntry(k, i, tag);
    ghost var before := table.Tags();
    EntriesMember(k, before, i, tag);
    found, p := table.DeleteTagFromBucket(i, tag);
    if !found {
      found, p := table.DeleteTagFromBucket(i', tag);
    }
    if found {
      EntriesUpdated(table.numBuckets, before, p, 0);
    }
  }

  /** Searches both buckets. */
  method Find(table: SingleTable, ghost k: nat, i: nat, tag: nat, beyond1: nat, beyond2: nat) returns (found: bool)
    requires Sized(table, k) && Proper(table, i, tag)
    ensures found <==> At(table, i, tag) in Stored(table)
  {
    EntriesMember(k, table.Tags(), i, tag);
    found := table.FindTagInBuckets(i, AltIndex(table.numBuckets, i, tag), tag, beyond1, beyond2);
  }

  /** Whether the stashed tag is the given one for the same pair of buckets. */
  method Matches(table: SingleTable, ghost k: nat, i1: nat, t1: nat, i: nat, tag: nat) returns (same: bool)
    requires Sized(table, k) && Proper(table, i1, t1) && Proper(table, i, tag)
    ensures same <==> At(table, i1, t1) == At(table, i, tag)
  {
    EntryEqual(k, i1, t1, i, tag);
    same := tag == t1 && (i == i1 || AltIndex(table.numBuckets, i, tag) == i1);
  }
}
