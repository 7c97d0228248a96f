/** The kick-out chain as a sequence of moves, each from a full bucket. */
module CuckooChain {
  import opened CuckooEntries

  /** The tags of the table, and the tag that looks for a place in a bucket. */
  datatype Hop = Hop(tags: seq<nat>, index: nat, tag: nat)

  ghost predicate Full(tags: seq<nat>, i: nat) {
    !InBucket(tags, i, 0)
  }

  /** One of the two buckets of the tag has an empty slot. */
  ghost predicate Roomy(n: nat, tags: seq<nat>, i: nat, tag: nat)
    requires n > 0
  {
    !Full(tags, i) || !Full(tags, AltIndex(n, i, tag))
  }

  /** The slot changes place with the tag. */
  ghost predicate Exchanged(a: Hop, p: nat, b: Hop) {
    p < |a.tags| && p / 4 == a.index && b.tags == a.tags[p := a.tag] && b.tag == a.tags[p]
  }

  /** From a full bucket to the other one, with kickout in exchange for one of its tags. */
  ghost predicate Hops(n: nat, a: Hop, b: Hop, kickout: bool)
    requires n > 0
  {
    && Full(a.tags, a.index) && b.index == AltIndex(n, a.index, b.tag)
    && if kickout then exists p :: Exchanged(a, p, b) else b.tags == a.tags && b.tag == a.tag
  }

  /** Only the first move is without kickout. */
  ghost predicate Chain(n: nat, chain: seq<Hop>)
    requires n > 0
  {
    chain != [] && forall m :: 0 <= m < |chain| - 1 ==> Hops(n, chain[m], chain[m + 1], m > 0)
  }

  /** The tag fills an empty slot. */
  ghost predicate Fills(a: Hop, p: nat, tags: seq<nat>) {
    p < |a.tags| && p / 4 == a.index && a.tags[p] == 0 && tags == a.tags[p := a.tag]
  }

  ghost predicate Settles(a: Hop, tags: seq<nat>) {
    exists p :: Fills(a, p, tags)
  }

  /** An insertion ends when a tag settles, or fails with the tag that is homeless after 500 moves. */
  ghost predicate Placing(n: nat, start: Hop, chain: seq<Hop>, ok: bool, end: Hop)
    requires n > 0
  {
    && Chain(n, chain) && chain[0] == start
    && (ok ==> |chain| <= 500 && Settles(chain[|chain| - 1], end.tags))
    && (!ok ==> |chain| == 501 && chain[|chain| - 1] == end)
  }

  lemma ChainNext(n: nat, chain: seq<Hop>, hop: Hop)
    requires n > 0 && Chain(n, chain) && Hops(n, chain[|chain| - 1], hop, |chain| > 1)
    ensures Chain(n, chain + [hop])
  {
  }

  lemma FullBuckets(n: nat, chain: seq<Hop>)
    requires n > 0 && Chain(n, chain)
    ensures |chain| > 1 ==> Full(chain[0].tags, chain[0].index)
    ensures |chain| > 2 ==> Full(chain[0].tags, AltIndex(n, chain[0].index, chain[0].tag))
  {
    assert |chain| > 1 ==> Hops(n, chain[0], chain[0 + 1], false);
    assert |chain| > 2 ==> Hops(n, chain[1], chain[1 + 1], true);
  }

  /** With an empty slot in one of its buckets a tag always finds a place, at the latest at the second attempt. */
  lemma RoomSettles(n: nat, start: Hop, chain: seq<Hop>, ok: bool, end: Hop)
    requires n > 0 && Placing(n, start, chain, ok, end) && Roomy(n, start.tags, start.index, start.tag)
    ensures ok && |chain| <= 2 && (!Full(start.tags, start.index) ==> |chain| == 1)
  {
    FullBuckets(n, chain);
  }

  /** The first slot with the tag in its bucket, or without one in its other bucket, is cleared. */
  ghost predicate Clears(n: nat, tags: seq<nat>, i: nat, tag: nat, p: nat, after: seq<nat>)
    requires n > 0
  {
    && p < |tags| && tags[p] == tag && after == tags[p := 0]
    && p / 4 == if InBucket(tags, i, tag) then i else AltIndex(n, i, tag)
  }
}
