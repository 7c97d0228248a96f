/**
  Stable rearrangements of a part of a sequence: what every sorting step does to the
  array, and all it does.
 */
module Rearranging {
  import opened Ordering
  import opened Copying

  /** s' is s with the elements of lo..hi rearranged stably and nothing else changed. */
  ghost predicate Rearranged<T(!new)>(less: Less<T>, s: seq<T>, s': seq<T>, lo: int, hi: int) {
    && |s| == |s'| && 0 <= lo <= hi <= |s|
    && (forall i :: 0 <= i < |s| && !(lo <= i < hi) ==> s'[i] == s[i])
    && Stable(less, s[lo..hi], s'[lo..hi])
  }

  lemma RearrangedReflexive<T(!new)>(less: Less<T>, s: seq<T>, lo: int, hi: int)
    requires 0 <= lo <= hi <= |s|
    ensures Rearranged(less, s, s, lo, hi)
  {
  }

  lemma RearrangedTransitive<T(!new)>(less: Less<T>, s: seq<T>, t: seq<T>, u: seq<T>, lo: int, hi: int)
    requires Rearranged(less, s, t, lo, hi) && Rearranged(less, t, u, lo, hi)
    ensures Rearranged(less, s, u, lo, hi)
  {
    forall x ensures Class(less, s[lo..hi], x) == Class(less, u[lo..hi], x) {
      assert Class(less, s[lo..hi], x) == Class(less, t[lo..hi], x) == Class(less, u[lo..hi], x);
    }
  }

  /** Writing a stable rearrangement over a part of the range. */
  lemma SpliceRearranged<T(!new)>(less: Less<T>, s: seq<T>, at: nat, m: seq<T>)
    requires at + |m| <= |s| && Stable(less, s[at..at + |m|], m)
    ensures Rearranged(less, s, Splice(s, at, m), at, at + |m|)
    ensures Splice(s, at, m)[at..at + |m|] == m
  {
  }

  /** A rearrangement of a part is a rearrangement of the whole. */
  lemma RearrangedWiden<T(!new)>(less: Less<T>, s: seq<T>, s': seq<T>, lo: int, hi: int, lo': int, hi': int)
    requires Rearranged(less, s, s', lo, hi) && 0 <= lo' <= lo && hi <= hi' <= |s|
    ensures Rearranged(less, s, s', lo', hi')
  {
    Cut(s, lo', lo, hi, hi');
    RearrangedParts(less, s, s', lo, hi, lo', hi');
    StableInside(less, s[lo'..lo], s[lo..hi], s'[lo..hi], s[hi..hi']);
  }

  lemma RearrangedBoth<T(!new)>(less: Less<T>, s: seq<T>, t: seq<T>, u: seq<T>, lo: int, mid: int, next: int, hi: int)
    requires Rearranged(less, s, t, mid, next) && Rearranged(less, t, u, lo, next)
    requires lo <= mid && next <= hi <= |s|
    ensures Rearranged(less, s, u, lo, hi)
  {
    RearrangedWiden(less, s, t, mid, next, lo, hi);
    RearrangedWiden(less, t, u, lo, next, lo, hi);
    RearrangedTransitive(less, s, t, u, lo, hi);
  }

  lemma Cut<T>(s: seq<T>, a: int, b: int, c: int, d: int)
    requires 0 <= a <= b <= c <= d <= |s|
    ensures s[a..d] == s[a..b] + s[b..c] + s[c..d]
  {
  }

  /** Parts beside the rearranged range are unchanged. */
  lemma RearrangedOutside<T(!new)>(less: Less<T>, s: seq<T>, s': seq<T>, lo: int, hi: int, i: int, j: int)
    requires Rearranged(less, s, s', lo, hi) && 0 <= i <= j <= |s| && (j <= lo || hi <= i)
    ensures s'[i..j] == s[i..j]
  {
  }

  /** The range around the rearranged part. */
  lemma RearrangedParts<T(!new)>(less: Less<T>, s: seq<T>, s': seq<T>, lo: int, hi: int, i: int, j: int)
    requires Rearranged(less, s, s', lo, hi) && 0 <= i <= lo && hi <= j <= |s|
    ensures s'[i..j] == s[i..lo] + s'[lo..hi] + s[hi..j]
  {
    Cut(s', i, lo, hi, j);
    RearrangedOutside(less, s, s', lo, hi, i, lo);
    RearrangedOutside(less, s, s', lo, hi, hi, j);
  }
}
