/**
  CuckooFilter: partial-key cuckoo hashing with kick-out chains and a one-entry victim
  stash. Whatever the random kick-outs, it is a multiset of entries: a tag with its pair
  of buckets.
 */
module CuckooFiltering {
  import opened Bits
  import opened Packing
  import opened CuckooEntries
  import opened CuckooChain
  import opened CuckooHashing
  import opened PowerSizing
  import opened TagTable
  import opened TableMoves
  import opened CuckooRuns

  datatype Status = Ok | NotFound | NotEnoughSpace

  datatype Victim = Victim(index: nat, tag: nat, used: bool)

  lemma Aside<T>(a: multiset<T>, b: multiset<T>, c: multiset<T>)
    ensures (a + b) + c == (a + c) + b
  {
  }

  class CuckooFilter<Key(!new)> {
    const table: SingleTable
    const hash: Key -> nat
    ghost const k: nat
    var numKeys: nat
    var victim: Victim
    ghost var events: seq<Event<Key>>
    ghost var history: seq<multiset<Entry>>

    /** The key count is that of the occupied slots, and a victim is a proper entry. */
    ghost predicate Valid()
      reads this`numKeys, this`victim, table.buckets
    {
      && Sized(table, k) && numKeys == |Stored(table)|
      && (victim.used ==> Proper(table, victim.index, victim.tag))
    }

    ghost function Stashed(): multiset<Entry>
      requires table.numBuckets > 0
      reads this`victim
    {
      if victim.used then multiset{At(table, victim.index, victim.tag)} else multiset{}
    }

    /** What the filter holds: the table and the victim. */
    ghost function Contents(): multiset<Entry>
      requires Valid()
      reads this`numKeys, this`victim, table.buckets
    {
      Stored(table) + Stashed()
    }

    /** The operations so far are a run that ends in the present contents. */
    ghost predicate Recorded()
      requires Valid()
      reads this, table.buckets
    {
      Run(EntryOf(), events, history) && history[|events|] == Contents()
    }

    ghost function EntryOf(): Key -> Entry
      requires table.numBuckets > 0
    {
      key => KeyEntry(key)
    }

    /** The high half of the 64-bit hash picks the bucket. */
    function KeyIndex(key: Key): (i: nat)
      requires table.numBuckets > 0
      ensures i < table.numBuckets
    {
      IndexHash(table.numBuckets, hash(key) % Pow2(64) / Pow2(32))
    }

    /** The low half is the tag. */
    function KeyTag(key: Key): (t: nat)
      ensures 0 < t < Base(table.width)
    {
      TagHash(table.width, hash(key) % Pow2(32))
    }

    ghost function KeyEntry(key: Key): Entry
      requires table.numBuckets > 0
    {
      At(table, KeyIndex(key), KeyTag(key))
    }

    /** A filter for fewer than four keys has no bucket, and its index hash is then a remainder by zero. */
    constructor (width: Width, hash: Key -> nat, keys: nat)
      requires keys < Words() && BucketCount(keys) <= Pow2(32)
      ensures fresh(table) && fresh(table.buckets)
      ensures this.hash == hash && table.width == width && table.numBuckets == BucketCount(keys)
      ensures Valid() <==> keys >= 4
      ensures table.numBuckets == 0 <==> keys < 4
      ensures Valid() ==> Contents() == multiset{} && !victim.used && Recorded() && events == []
    {
      var t, k := TableFor(width, keys);
      this.k := k;
      this.hash := hash;
      table := t;
      numKeys := 0;
      victim := Victim(0, 0, false);
      events, history := [], [multiset{}];
    }

    /** Adds the entry to the table, or stashes the one that then has no place. */
    method AddEntry(i: nat, tag: nat) returns (ghost chain: seq<Hop>)
      requires Valid() && Proper(table, i, tag) && !victim.used
      modifies this`numKeys, this`victim, table.buckets
      ensures Valid() && Contents() == old(Contents()) + multiset{At(table, i, tag)}
      ensures Placing(table.numBuckets, Hop(old(table.Tags()), i, tag), chain, !victim.used, Homeless())
      ensures numKeys == old(numKeys) + if victim.used then 0 else 1
      ensures Roomy(table.numBuckets, old(table.Tags()), i, tag) ==> !victim.used
    {
      ghost var start := Hop(table.Tags(), i, tag);
      var ok, curindex, curtag;
      ok, curindex, curtag, chain := Insert(table, k, i, tag);
      if Roomy(table.numBuckets, start.tags, i, tag) {
        RoomSettles(table.numBuckets, start, chain, ok, Hop(table.Tags(), curindex, curtag));
      }
      if ok {
        numKeys := numKeys + 1;
      } else {
        victim := Victim(curindex, curtag, true);
      }
    }

    /** The table with the victim. */
    ghost function Homeless(): Hop
      requires Valid()
      reads this`numKeys, this`victim, table.buckets
    {
      Hop(table.Tags(), victim.index, victim.tag)
    }

    /**
      A key goes into the table whenever one of its buckets has an empty slot, and is stashed or
      replaces a stashed one only after as many moves as are allowed, each from a full bucket.
     */
    method Add(key: Key) returns (status: Status, ghost chain: seq<Hop>)
      requires Valid() && Recorded()
      modifies this, table.buckets
      ensures Valid() && Recorded()
      ensures status == if old(victim.used) then NotEnoughSpace else Ok
      ensures status == NotEnoughSpace ==>
        victim == old(victim) && numKeys == old(numKeys) && table.Tags() == old(table.Tags())
      ensures status == Ok ==>
        Placing(table.numBuckets, Hop(old(table.Tags()), KeyIndex(key), KeyTag(key)), chain, !victim.used, Homeless())
      ensures status == Ok ==> numKeys == old(numKeys) + if victim.used then 0 else 1
      ensures status == Ok && Roomy(table.numBuckets, old(table.Tags()), KeyIndex(key), KeyTag(key)) ==> !victim.used
      ensures Contents() == if status == Ok then old(Contents()) + multiset{KeyEntry(key)} else old(Contents())
      ensures events == old(events) + [if status == Ok then Added(key) else Refused(key)]
    {
      status, chain := if victim.used then NotEnoughSpace else Ok, [];
      if status == Ok {
        chain := AddEntry(KeyIndex(key), KeyTag(key));
      }
      Record(old(events), old(history), if status == Ok then Added(key) else Refused(key));
    }

    ghost method Record(past: seq<Event<Key>>, contents: seq<multiset<Entry>>, event: Event<Key>)
      requires Valid() && Run(EntryOf(), past, contents) && Step(EntryOf(), contents[|past|], event, Contents())
      modifies this`events, this`history
      ensures Valid() && Recorded() && events == past + [event]
    {
      ghost var f, now := EntryOf(), Contents();
      RunExtended(f, past, contents, event, now);
      events, history := past + [event], contents + [now];
      assert Contents() == now && history[|events|] == now;
      assert Run(f, events, history);
    }

    method VictimMatches(i: nat, tag: nat) returns (same: bool)
      requires Valid() && Proper(table, i, tag)
      ensures same <==> At(table, i, tag) in Stashed()
    {
      same := false;
      if victim.used {
        same := Matches(table, k, victim.index, victim.tag, i, tag);
      }
    }

    /** Whether the key's entry is held; a key added and not deleted since is found if only such keys were deleted. */
    method Contain(key: Key, beyond1: nat, beyond2: nat) returns (status: Status)
      requires Valid() && Recorded()
      ensures status == if KeyEntry(key) in Contents() then Ok else NotFound
      ensures Disciplined(events) && key in Live(events) ==> status == Ok
      ensures Disciplined(events) && status == Ok ==>
        exists other :: other in Live(events) && KeyEntry(other) == KeyEntry(key)
    {
      var found := VictimMatches(KeyIndex(key), KeyTag(key));
      if !found {
        found := Find(table, k, KeyIndex(key), KeyTag(key), beyond1, beyond2);
      }
      if Disciplined(events) {
        Answer(key);
      }
      return if found then Ok else NotFound;
    }

    lemma Answer(key: Key)
      requires Valid() && Recorded() && Disciplined(events)
      ensures KeyEntry(key) in Contents() <==> exists other :: other in Live(events) && KeyEntry(other) == KeyEntry(key)
    {
      var e := KeyEntry(key);
      if e in Contents() {
        PositiveHasLiveKey(EntryOf(), events, history, e);
      }
      if other :| other in Live(events) && KeyEntry(other) == e {
        NoFalseNegatives(EntryOf(), events, history, other);
      }
    }

    /** Puts the victim back into the table if that succeeds, or stashes the tag that then has no place. */
    method EliminateVictim() returns (ghost chain: seq<Hop>)
      requires Valid()
      modifies this`numKeys, this`victim, table.buckets
      ensures Valid() && Contents() == old(Contents())
      ensures !old(victim.used) ==> victim == old(victim) && table.Tags() == old(table.Tags())
      ensures old(victim.used) ==> Placing(table.numBuckets, old(Homeless()), chain, !victim.used, Homeless())
      ensures old(victim.used) && Roomy(table.numBuckets, old(table.Tags()), old(victim.index), old(victim.tag)) ==>
        !victim.used
    {
      chain := [];
      if victim.used {
        var v := victim;
        victim := v.(used := false);
        chain := AddEntry(v.index, v.tag);
      }
    }

    /** Takes the key's entry out of the table if it is there. */
    method TakeStored(key: Key) returns (found: bool, ghost p: nat)
      requires Valid()
      modifies this`numKeys, table.buckets
      ensures Valid() && (found <==> KeyEntry(key) in old(Stored(table)))
      ensures found ==> Contents() + multiset{KeyEntry(key)} == old(Contents())
      ensures found ==> Clears(table.numBuckets, old(table.Tags()), KeyIndex(key), KeyTag(key), p, table.Tags())
      ensures !found ==> table.Tags() == old(table.Tags()) && numKeys == old(numKeys)
    {
      found, p := Take(table, k, KeyIndex(key), KeyTag(key));
      if found {
        numKeys := numKeys - 1;
        Aside(Stored(table), Stashed(), multiset{KeyEntry(key)});
      }
    }

    method DropVictim()
      requires Valid() && victim.used
      modifies this`victim
      ensures Valid() && victim == old(victim).(used := false) && Contents() + old(Stashed()) == old(Contents())
      ensures table.Tags() == old(table.Tags())
    {
      victim := victim.(used := false);
    }

    /** What becomes of the table and the victim: between, a slot is cleared if the table has the entry. */
    ghost predicate RemovedFrom(key: Key, before: Hop, used: bool, p: nat, chain: seq<Hop>)
      requires Valid()
      reads this, table.buckets
    {
      && p < |before.tags| && Clears(table.numBuckets, before.tags, KeyIndex(key), KeyTag(key), p, before.tags[p := 0])
      && (!used ==> !victim.used && table.Tags() == before.tags[p := 0])
      && (used ==> Placing(table.numBuckets, before.(tags := before.tags[p := 0]), chain, !victim.used, Homeless()))
      && (used && Roomy(table.numBuckets, before.tags[p := 0], before.index, before.tag) ==> !victim.used)
    }

    method RemoveStored(key: Key) returns (found: bool, ghost p: nat, ghost chain: seq<Hop>)
      requires Valid()
      modifies this`numKeys, this`victim, table.buckets
      ensures Valid() && (found <==> KeyEntry(key) in old(Stored(table)))
      ensures found ==> Contents() + multiset{KeyEntry(key)} == old(Contents())
      ensures found ==> RemovedFrom(key, old(Homeless()), old(victim.used), p, chain)
      ensures !found ==> table.Tags() == old(table.Tags()) && victim == old(victim) && numKeys == old(numKeys)
    {
      chain := [];
      found, p := TakeStored(key);
      if found {
        chain := EliminateVictim();
      }
    }

    method Remove(key: Key) returns (found: bool, ghost p: nat, ghost chain: seq<Hop>)
      requires Valid()
      modifies this`numKeys, this`victim, table.buckets
      ensures Valid()
      ensures found <==> KeyEntry(key) in old(Contents())
      ensures if found then Contents() + multiset{KeyEntry(key)} == old(Contents()) else Contents() == old(Contents())
      ensures KeyEntry(key) in old(Stored(table)) ==> RemovedFrom(key, old(Homeless()), old(victim.used), p, chain)
      ensures KeyEntry(key) !in old(Stored(table)) ==>
        table.Tags() == old(table.Tags()) && victim == old(victim).(used := old(victim.used) && !found)
    {
      var same := VictimMatches(KeyIndex(key), KeyTag(key));
      ghost var e := KeyEntry(key);
      assert e in Contents() <==> e in Stored(table) || same;
      found, p, chain := RemoveStored(key);
      if !found && same {
        assert Stashed() == multiset{e};
        DropVictim();
        found := true;
      }
    }

    /**
      Removes the key's entry from the table, and else the victim. After a removal from the table
      the victim is placed again, which succeeds at once when one of its buckets has an empty slot.
     */
    method Delete(key: Key) returns (status: Status, ghost p: nat, ghost chain: seq<Hop>)
      requires Valid() && Recorded()
      modifies this, table.buckets
      ensures Valid() && Recorded()
      ensures status == if KeyEntry(key) in old(Contents()) then Ok else NotFound
      ensures status == Ok ==> Contents() + multiset{KeyEntry(key)} == old(Contents())
      ensures status == NotFound ==> Contents() == old(Contents())
      ensures KeyEntry(key) in old(Stored(table)) ==> RemovedFrom(key, old(Homeless()), old(victim.used), p, chain)
      ensures KeyEntry(key) !in old(Stored(table)) ==>
        table.Tags() == old(table.Tags()) && victim == old(victim).(used := old(victim.used) && status != Ok)
      ensures events == old(events) + [Deleted(key, status == Ok)]
    {
      var found;
      found, p, chain := Remove(key);
      status := if found then Ok else NotFound;
      Record(events, history, Deleted(key, found));
    }

    /** The entries of the table; a victim is not counted. */
    method Size() returns (n: nat)
      requires Valid()
      ensures n == |Contents()| - if victim.used then 1 else 0
    {
      n := numKeys;
    }

    /** What is held more than eight times is the victim too. */
    lemma VictimNeeded(e: Entry)
      requires Valid() && Contents()[e] > 8
      ensures victim.used
    {
      AtMostEight(k, table.Tags(), e);
    }

    ghost predicate Heaped(e: Entry, n: nat)
      requires Valid()
      reads this, table.buckets
    {
      victim.used || Contents()[e] >= n
    }

    method AddOnce(key: Key, n: nat)
      requires Valid() && Recorded() && Heaped(KeyEntry(key), n)
      modifies this, table.buckets
      ensures Valid() && Recorded() && Heaped(KeyEntry(key), n + 1)
    {
      ghost var chain;
      var status;
      status, chain := Add(key);
    }

    /** Adding any key nine times leaves a victim, which Size does not count. */
    method Overfill(key: Key) returns (n: nat)
      requires Valid() && Recorded()
      modifies this, table.buckets
      ensures Valid() && Recorded() && victim.used && n == |Contents()| - 1
    {
      for i := 0 to 9
        invariant Valid() && Recorded() && Heaped(KeyEntry(key), i)
      {
        AddOnce(key, i);
      }
      if !victim.used {
        VictimNeeded(KeyEntry(key));
      }
      n := Size();
    }
  }
}
