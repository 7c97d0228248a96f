/**
  TimSort: natural runs, binary insertion, a stack of runs, and galloping in-place
  merges. Positions are indices into the array a; comparisons go through less.
 */
module TimSorting {
  import opened Ordering
  import opened Rearranging
  import opened RunStack
  import opened MinRun
  import InPlaceMerge
  import Trimming
  import Runs

  class TimSort<T(!new)> {
    const a: array<T>
    const less: Less<T>
    const merger: InPlaceMerge.Merger<T>
    var runBase: seq<int>
    var runLen: seq<int>

    ghost predicate Valid() {
      merger.a == a && merger.less == less
    }

    constructor (a: array<T>, less: Less<T>)
      ensures Valid() && fresh(merger) && this.a == a && this.less == less
      ensures runBase == [] && runLen == []
    {
      this.a, this.less := a, less;
      merger := new InPlaceMerge.Merger(a, less);
      runBase, runLen := [], [];
    }

    method PushRun(base: int, len: int)
      modifies this`runBase, this`runLen
      ensures runBase == old(runBase) + [base] && runLen == old(runLen) + [len]
    {
      runBase, runLen := runBase + [base], runLen + [len];
    }

    /** Replace the entries of runs i and i + 1 by one entry for both. */
    method JoinEntries(i: nat)
      requires |runBase| == |runLen| && (i == |runBase| - 2 || i == |runBase| - 3)
      modifies this`runBase, this`runLen
      ensures runBase == BasesMerged(old(runBase), i) && runLen == LensMerged(old(runLen), i)
    {
      runLen := runLen[i := runLen[i] + runLen[i + 1]];
      if i == |runBase| - 3 {
        runBase := runBase[i + 1 := runBase[i + 2]];
        runLen := runLen[i + 1 := runLen[i + 2]];
      }
      runBase, runLen := runBase[..|runBase| - 1], runLen[..|runLen| - 1];
    }

    /** Merge runs i and i + 1, which must be at the top of the stack or just below it. */
    method MergeAt(i: nat, ghost lo: int, ghost hi: int)
      requires Valid() && StrictWeak(less) && Tiled(less, a[..], runBase, runLen, lo, hi)
      requires i == |runBase| - 2 || i == |runBase| - 3
      modifies a, this, merger
      ensures runBase == BasesMerged(old(runBase), i) && runLen == LensMerged(old(runLen), i)
      ensures Tiled(less, a[..], runBase, runLen, lo, hi)
      ensures Rearranged(less, old(a[..]), a[..], lo, hi)
    {
      ghost var s, bases, lens := a[..], runBase, runLen;
      Neighbours(less, s, bases, lens, lo, hi, i);
      var base1, len1, base2, len2 := runBase[i], runLen[i], runBase[i + 1], runLen[i + 1];
      JoinEntries(i);
      Trimming.MergeRuns(merger, base1, len1, base2, len2);
      ghost var t := a[..];
      RearrangedWiden(less, s, t, base1, base2 + len2, lo, hi);
      TiledMerged(less, s, t, bases, lens, lo, hi, i);
    }

    /** Make the next run and push it. */
    method NextRun(ghost lo: nat, cur: nat, hi: nat, minRun: nat) returns (next: nat)
      requires StrictWeak(less) && lo <= cur < hi <= a.Length
      requires Tiled(less, a[..], runBase, runLen, lo, cur)
      modifies a, this
      ensures cur < next <= hi && (next - cur >= minRun || next == hi)
      ensures Tiled(less, a[..], runBase, runLen, lo, next) && runBase != []
      ensures Rearranged(less, old(a[..]), a[..], cur, next)
    {
      ghost var s := a[..];
      var n := Runs.MakeRun(a, cur, hi, minRun, less);
      next := cur + n;
      TiledNext(less, s, a[..], runBase, runLen, lo, cur, n);
      PushRun(cur, n);
    }

    /** Make the next run, push it and restore the balance of the stack. */
    method AddRun(ghost lo: nat, cur: nat, hi: nat, minRun: nat) returns (next: nat)
      requires Valid() && StrictWeak(less) && lo <= cur < hi <= a.Length
      requires Tiled(less, a[..], runBase, runLen, lo, cur)
      modifies a, this, merger
      ensures cur < next <= hi && (next - cur >= minRun || next == hi)
      ensures Tiled(less, a[..], runBase, runLen, lo, next) && runBase != []
      ensures Rearranged(less, old(a[..]), a[..], lo, hi)
    {
      next := NextRun(lo, cur, hi, minRun);
      ghost var t := a[..];
      MergeCollapse(lo, next);
      RearrangedBoth(less, old(a[..]), t, a[..], lo, cur, next, hi);
    }

    /** Merge until the top three runs are of quickly decreasing length. */
    method MergeCollapse(ghost lo: int, ghost hi: int)
      requires Valid() && StrictWeak(less) && Tiled(less, a[..], runBase, runLen, lo, hi)
      modifies a, this, merger
      ensures Tiled(less, a[..], runBase, runLen, lo, hi) && (old(runBase) != [] ==> runBase != [])
      ensures Rearranged(less, old(a[..]), a[..], lo, hi)
      ensures |runLen| > 1 ==> runLen[|runLen| - 2] > runLen[|runLen| - 1]
      ensures |runLen| > 2 ==> runLen[|runLen| - 3] > runLen[|runLen| - 2] + runLen[|runLen| - 1]
    {
      while |runBase| > 1
        invariant Tiled(less, a[..], runBase, runLen, lo, hi) && (old(runBase) != [] ==> runBase != [])
        invariant Rearranged(less, old(a[..]), a[..], lo, hi)
        decreases |runBase|
      {
        ghost var s := a[..];
        var n := |runBase| - 2;
        if n > 0 && runLen[n - 1] <= runLen[n] + runLen[n + 1] {
          if runLen[n - 1] < runLen[n + 1] {
            n := n - 1;
          }
          MergeAt(n, lo, hi);
        } else if runLen[n] <= runLen[n + 1] {
          MergeAt(n, lo, hi);
        } else {
          break;
        }
        RearrangedTransitive(less, old(a[..]), s, a[..], lo, hi);
      }
    }

    /** Merge everything into one run. */
    method MergeForceCollapse(ghost lo: int, ghost hi: int)
      requires Valid() && StrictWeak(less) && Tiled(less, a[..], runBase, runLen, lo, hi)
      modifies a, this, merger
      ensures Tiled(less, a[..], runBase, runLen, lo, hi)
      ensures |runBase| == if old(runBase) == [] then 0 else 1
      ensures Rearranged(less, old(a[..]), a[..], lo, hi)
    {
      while |runBase| > 1
        invariant Tiled(less, a[..], runBase, runLen, lo, hi) && (old(runBase) != [] <==> runBase != [])
        invariant Rearranged(less, old(a[..]), a[..], lo, hi)
        decreases |runBase|
      {
        ghost var s := a[..];
        var n := |runBase| - 2;
        if n > 0 && runLen[n - 1] <= runLen[n + 1] {
          n := n - 1;
        }
        MergeAt(n, lo, hi);
        RearrangedTransitive(less, old(a[..]), s, a[..], lo, hi);
      }
    }
  }

  /** A single run that tiles the range is the sorted range. */
  lemma OneRun<T>(less: Less<T>, s: seq<T>, bases: seq<int>, lens: seq<int>, lo: int, hi: int)
    requires Tiled(less, s, bases, lens, lo, hi) && |bases| == 1
    ensures Sorted(less, s[lo..hi])
  {
    assert bases[0] == lo && bases[0] + lens[0] == hi;
  }

  /** Sorts lo..hi of the array, stably, and touches nothing else. */
  method Sort<T(!new)>(a: array<T>, lo: nat, hi: nat, less: Less<T>)
    requires StrictWeak(less) && lo <= hi <= a.Length
    modifies a
    ensures Sorted(less, a[..][lo..hi]) && Rearranged(less, old(a[..]), a[..], lo, hi)
    ensures multiset(a[..][lo..hi]) == multiset(old(a[..])[lo..hi])
  {
    SortRange(a, lo, hi, less);
    StableIsPermutation(less, old(a[..])[lo..hi], a[..][lo..hi]);
  }

  method SortRange<T(!new)>(a: array<T>, lo: nat, hi: nat, less: Less<T>)
    requires StrictWeak(less) && lo <= hi <= a.Length
    modifies a
    ensures Sorted(less, a[..][lo..hi]) && Rearranged(less, old(a[..]), a[..], lo, hi)
  {
    if hi - lo < 2 {
      RearrangedReflexive(less, a[..], lo, hi);
    } else if hi - lo < MIN_MERGE {
      var n := Runs.MakeRun(a, lo, hi, hi - lo, less);
      assert n == hi - lo;
    } else {
      SortRuns(a, lo, hi, less);
    }
  }

  method SortRuns<T(!new)>(a: array<T>, lo: nat, hi: nat, less: Less<T>)
    requires StrictWeak(less) && lo < hi <= a.Length
    modifies a
    ensures Sorted(less, a[..][lo..hi]) && Rearranged(less, old(a[..]), a[..], lo, hi)
  {
    var ts := new TimSort(a, less);
    var minRun := MinRunLength(hi - lo);
    var cur := lo;
    RearrangedReflexive(less, a[..], lo, hi);
    while cur != hi
      invariant lo <= cur <= hi && ts.Valid() && ts.a == a && ts.less == less && fresh(ts) && fresh(ts.merger)
      invariant Tiled(less, a[..], ts.runBase, ts.runLen, lo, cur) && (cur > lo ==> ts.runBase != [])
      invariant Rearranged(less, old(a[..]), a[..], lo, hi)
      decreases hi - cur
    {
      ghost var s := a[..];
      cur := ts.AddRun(lo, cur, hi, minRun);
      RearrangedTransitive(less, old(a[..]), s, a[..], lo, hi);
    }
    ghost var s := a[..];
    ts.MergeForceCollapse(lo, hi);
    RearrangedTransitive(less, old(a[..]), s, a[..], lo, hi);
    OneRun(less, a[..], ts.runBase, ts.runLen, lo, hi);
  }
}
