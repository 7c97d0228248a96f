/**
  Before two runs are merged, galloping trims what is in place already: the elements of
  run 1 not above run 2's first, and those of run 2 not below run 1's last. The merges
  rely on what is left.
 */
module Trimming {
  import opened Sequences
  import opened Ordering
  import opened Merging
  import opened Galloping
  import opened Rearranging
  import opened MergeSteps
  import opened InPlaceMerge

  /** What trimming gives the merges: run 1's last exceeds all of run 2, run 2's first precedes all of run 1. */
  lemma Trimmed<T(!new)>(less: Less<T>, s: seq<T>, base: nat, mid: nat, end: nat, k: nat, m: nat)
    requires StrictWeak(less) && base < mid < end <= |s| && base + k < mid && mid + m <= end
    requires Sorted(less, s[base..mid]) && Sorted(less, s[mid..end])
    requires RightCut(less, s[mid], s[base..mid], k) && LeftCut(less, s[mid - 1], s[mid..end], m)
    ensures m > 0
    ensures LoReady(less, s[base + k..mid], s[mid..mid + m]) && HiReady(less, s[base + k..mid], s[mid..mid + m])
    ensures HeadLess(less, s[mid..mid + m], 1, s[base + k])
    ensures TailGreater(less, s[base + k..mid], mid - base - k - 1, s[mid + m - 1])
  {
    var xs, ys := s[base..mid], s[mid..end];
    assert xs[|xs| - 1] == s[mid - 1] && ys[0] == s[mid];
    assert less(ys[0], xs[|xs| - 1]);
    SliceOfSlice(s, base, mid, k);
    SliceOfSlice(s, mid, end, m);
  }

  /** The part trimmed off run 1 is below what is left, the part trimmed off run 2 above it. */
  lemma TrimmedSorted<T(!new)>(less: Less<T>, s: seq<T>, s': seq<T>, base: nat, mid: nat, end: nat, k: nat, m: nat)
    requires StrictWeak(less) && base < mid < end <= |s| && base + k < mid && mid + m <= end
    requires Sorted(less, s[base..mid]) && Sorted(less, s[mid..end])
    requires RightCut(less, s[mid], s[base..mid], k) && LeftCut(less, s[mid - 1], s[mid..end], m)
    requires Rearranged(less, s, s', base + k, mid + m) && Sorted(less, s'[base + k..mid + m])
    ensures Rearranged(less, s, s', base, end) && Sorted(less, s'[base..end])
  {
    RearrangedWiden(less, s, s', base + k, mid + m, base, end);
    TrimmedMerge(less, s, s', base, mid, end, k, m);
    MergeSorted(less, s[base..mid], s[mid..end]);
  }

  lemma TrimmedMerge<T(!new)>(less: Less<T>, s: seq<T>, s': seq<T>, base: nat, mid: nat, end: nat, k: nat, m: nat)
    requires StrictWeak(less) && base < mid < end <= |s| && base + k < mid && mid + m <= end
    requires Sorted(less, s[base..mid]) && Sorted(less, s[mid..end])
    requires RightCut(less, s[mid], s[base..mid], k) && LeftCut(less, s[mid - 1], s[mid..end], m)
    requires Rearranged(less, s, s', base + k, mid + m) && Sorted(less, s'[base + k..mid + m])
    ensures s'[base..end] == Merge(less, s[base..mid], s[mid..end])
  {
    TrimmedSlices(s, base, mid, end, k, m);
    TrimmedRuns(less, s[base..mid], s[mid..end], k, m, s'[base + k..mid + m]);
    RearrangedParts(less, s, s', base + k, mid + m, base, end);
  }

  lemma TrimmedSlices<T>(s: seq<T>, base: nat, mid: nat, end: nat, k: nat, m: nat)
    requires base + k <= mid <= mid + m <= end <= |s|
    ensures s[base..base + k] == s[base..mid][..k] && s[mid + m..end] == s[mid..end][m..]
    ensures s[base + k..mid + m] == s[base..mid][k..] + s[mid..end][..m]
  {
  }

  lemma TrimmedRuns<T(!new)>(less: Less<T>, xs: seq<T>, ys: seq<T>, k: nat, m: nat, inner: seq<T>)
    requires StrictWeak(less) && Sorted(less, xs) && Sorted(less, ys) && k < |xs| && ys != []
    requires RightCut(less, ys[0], xs, k) && LeftCut(less, xs[|xs| - 1], ys, m)
    requires Sorted(less, inner) && Stable(less, xs[k..] + ys[..m], inner)
    ensures xs[..k] + inner + ys[m..] == Merge(less, xs, ys)
  {
    TakeLeft(less, xs, ys, k);
    TakeRightBack(less, xs[k..], ys, m);
    IsMerge(less, xs[k..], ys[..m], inner);
    Associate(xs[..k], inner, ys[m..]);
  }

  /** Nothing to do when all of run 1 is in place. */
  lemma InPlace<T(!new)>(less: Less<T>, s: seq<T>, base: nat, mid: nat, end: nat)
    requires StrictWeak(less) && base < mid < end <= |s|
    requires Sorted(less, s[base..mid]) && Sorted(less, s[mid..end])
    requires RightCut(less, s[mid], s[base..mid], mid - base)
    ensures Sorted(less, s[base..end])
  {
    var xs, ys := s[base..mid], s[mid..end];
    TakeLeft(less, xs, ys, |xs|);
    assert xs[..|xs|] == xs && xs[|xs|..] == [];
    assert s[base..end] == xs + ys;
    MergeSorted(less, xs, ys);
  }

  /** Merge two trimmed runs with the shorter one in temporary storage. */
  method MergeTrimmed<T(!new)>(merger: Merger<T>, base: nat, mid: nat, end: nat)
    requires StrictWeak(merger.less) && base < mid < end <= merger.a.Length
    requires LoReady(merger.less, merger.a[..][base..mid], merger.a[..][mid..end])
    requires HiReady(merger.less, merger.a[..][base..mid], merger.a[..][mid..end])
    requires HeadLess(merger.less, merger.a[..][mid..end], 1, merger.a[base])
    requires TailGreater(merger.less, merger.a[..][base..mid], mid - base - 1, merger.a[end - 1])
    modifies merger.a, merger
    ensures Rearranged(merger.less, old(merger.a[..]), merger.a[..], base, end)
    ensures Sorted(merger.less, merger.a[..][base..end])
  {
    if mid - base <= end - mid {
      merger.MergeLo(base, mid - base, mid, end - mid);
    } else {
      merger.MergeHi(base, mid - base, mid, end - mid);
    }
  }

  /** Trim run 2 and merge; the first k elements of run 1 are trimmed off already. */
  method MergeRest<T(!new)>(merger: Merger<T>, base1: nat, k: nat, base2: nat, end: nat)
    requires StrictWeak(merger.less) && base1 + k < base2 < end <= merger.a.Length
    requires Sorted(merger.less, merger.a[..][base1..base2]) && Sorted(merger.less, merger.a[..][base2..end])
    requires RightCut(merger.less, merger.a[base2], merger.a[..][base1..base2], k)
    modifies merger.a, merger
    ensures Rearranged(merger.less, old(merger.a[..]), merger.a[..], base1, end)
    ensures Sorted(merger.less, merger.a[..][base1..end])
  {
    ghost var s := merger.a[..];
    assert merger.a[base2..end] == s[base2..end];
    var m := GallopLeft(merger.less, merger.a[base2 - 1], merger.a[base2..end], end - base2 - 1);
    Trimmed(merger.less, s, base1, base2, end, k, m);
    MergeTrimmed(merger, base1 + k, base2, base2 + m);
    TrimmedSorted(merger.less, s, merger.a[..], base1, base2, end, k, m);
  }

  /** Merge two neighbouring runs in the array, trimmed first. */
  method MergeRuns<T(!new)>(merger: Merger<T>, base1: nat, len1: nat, base2: nat, len2: nat)
    requires StrictWeak(merger.less) && 0 < len1 && 0 < len2
    requires base1 + len1 == base2 && base2 + len2 <= merger.a.Length
    requires Sorted(merger.less, merger.a[..][base1..base2])
    requires Sorted(merger.less, merger.a[..][base2..base2 + len2])
    modifies merger.a, merger
    ensures Rearranged(merger.less, old(merger.a[..]), merger.a[..], base1, base2 + len2)
    ensures Sorted(merger.less, merger.a[..][base1..base2 + len2])
  {
    assert merger.a[base1..base2] == merger.a[..][base1..base2];
    var k := GallopRight(merger.less, merger.a[base2], merger.a[base1..base2], 0);
    if k == len1 {
      InPlace(merger.less, merger.a[..], base1, base2, base2 + len2);
    } else {
      MergeRest(merger, base1, k, base2, base2 + len2);
    }
  }
}
