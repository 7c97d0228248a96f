/**
  The stable merge of two sorted sequences, and the laws by which a merge may take
  elements from either run, at either end, one at a time or a block at a time.
  Elements of xs go before equivalent elements of ys.
 */
module Merging {
  import opened Sequences
  import opened Ordering

  function Merge<T>(less: Less<T>, xs: seq<T>, ys: seq<T>): (m: seq<T>)
    ensures |m| == |xs| + |ys|
    decreases |xs| + |ys|
  {
    if xs == [] then ys
    else if ys == [] then xs
    else if less(ys[0], xs[0]) then [ys[0]] + Merge(less, xs, ys[1..])
    else [xs[0]] + Merge(less, xs[1..], ys)
  }

  // ---- what a merge is ----

  ghost predicate BoundedBelow<T>(less: Less<T>, x: T, s: seq<T>) {
    forall i :: 0 <= i < |s| ==> Le(less, x, s[i])
  }

  lemma {:induction false} MergeBounded<T>(less: Less<T>, x: T, xs: seq<T>, ys: seq<T>)
    requires BoundedBelow(less, x, xs) && BoundedBelow(less, x, ys)
    ensures BoundedBelow(less, x, Merge(less, xs, ys))
    decreases |xs| + |ys|
  {
    if xs == [] || ys == [] {
    } else if less(ys[0], xs[0]) {
      MergeBounded(less, x, xs, ys[1..]);
    } else {
      MergeBounded(less, x, xs[1..], ys);
    }
  }

  /** What bounds the first element of a run bounds the run. */
  lemma RunBounded<T(!new)>(less: Less<T>, x: T, s: seq<T>)
    requires StrictWeak(less) && Sorted(less, s) && s != [] && Le(less, x, s[0])
    ensures BoundedBelow(less, x, s)
  {
    forall i | 0 < i < |s| ensures Le(less, x, s[i]) {
      assert Le(less, s[0], s[i]);
    }
  }

  lemma {:induction false} MergeSorted<T(!new)>(less: Less<T>, xs: seq<T>, ys: seq<T>)
    requires StrictWeak(less) && Sorted(less, xs) && Sorted(less, ys)
    ensures Sorted(less, Merge(less, xs, ys))
    decreases |xs| + |ys|
  {
    if xs == [] || ys == [] {
    } else if less(ys[0], xs[0]) {
      assert Le(less, ys[0], ys[0]) && Le(less, ys[0], xs[0]);
      RunBounded(less, ys[0], xs);
      RunBounded(less, ys[0], ys);
      MergeBounded(less, ys[0], xs, ys[1..]);
      MergeSorted(less, xs, ys[1..]);
    } else {
      assert Le(less, xs[0], xs[0]);
      RunBounded(less, xs[0], xs);
      RunBounded(less, xs[0], ys);
      MergeBounded(less, xs[0], xs[1..], ys);
      MergeSorted(less, xs[1..], ys);
    }
  }

  lemma {:induction false} MergeStable<T(!new)>(less: Less<T>, xs: seq<T>, ys: seq<T>, x: T)
    requires StrictWeak(less) && Sorted(less, xs) && Sorted(less, ys)
    ensures Class(less, Merge(less, xs, ys), x) == Class(less, xs + ys, x)
    decreases |xs| + |ys|
  {
    if xs == [] {
      assert xs + ys == ys;
    } else if ys == [] {
      assert xs + ys == xs;
    } else if less(ys[0], xs[0]) {
      MergeStable(less, xs, ys[1..], x);
      MoveToFront(less, xs, ys, x);
      ClassConcat(less, [ys[0]], Merge(less, xs, ys[1..]), x);
    } else {
      MergeStable(less, xs[1..], ys, x);
      assert xs + ys == [xs[0]] + (xs[1..] + ys);
      ClassConcat(less, [xs[0]], xs[1..] + ys, x);
      ClassConcat(less, [xs[0]], Merge(less, xs[1..], ys), x);
    }
  }

  /** No element of a run that is greater than y is equivalent to what y is equivalent to. */
  lemma NoneEquivalent<T(!new)>(less: Less<T>, xs: seq<T>, y: T, x: T)
    requires StrictWeak(less) && Sorted(less, xs) && xs != [] && less(y, xs[0]) && Equiv(less, y, x)
    ensures Class(less, xs, x) == []
  {
    forall i | 0 <= i < |xs| ensures !Equiv(less, xs[i], x) {
      assert !Le(less, xs[0], y) && Le(less, x, y);
      assert i > 0 ==> Le(less, xs[0], xs[i]);
      assert Le(less, xs[0], xs[0]);
      if Le(less, xs[i], x) {
        assert false;
      }
    }
    ClassEmpty(less, xs, x);
  }

  lemma OneIsEmpty<T>(a: seq<T>, b: seq<T>, c: seq<T>)
    requires a == [] || b == []
    ensures a + (b + c) == b + (a + c)
  {
  }

  /** ys[0] may be moved over a run all of whose elements are greater. */
  lemma MoveToFront<T(!new)>(less: Less<T>, xs: seq<T>, ys: seq<T>, x: T)
    requires StrictWeak(less) && Sorted(less, xs) && xs != [] && ys != [] && less(ys[0], xs[0])
    ensures Class(less, xs + ys, x) == Class(less, [ys[0]], x) + Class(less, xs + ys[1..], x)
  {
    assert ys == [ys[0]] + ys[1..];
    ClassOne(less, ys[0], x);
    if Equiv(less, ys[0], x) {
      NoneEquivalent(less, xs, ys[0], x);
    }
    OneIsEmpty(Class(less, xs, x), Class(less, [ys[0]], x), Class(less, ys[1..], x));
    ClassConcat(less, xs, ys, x);
    ClassConcat(less, [ys[0]], ys[1..], x);
    ClassConcat(less, xs, ys[1..], x);
  }

  /** Merging two sorted runs sorts their concatenation stably. */
  lemma MergeSortsStably<T(!new)>(less: Less<T>, xs: seq<T>, ys: seq<T>)
    requires StrictWeak(less) && Sorted(less, xs) && Sorted(less, ys)
    ensures Sorted(less, Merge(less, xs, ys)) && Stable(less, xs + ys, Merge(less, xs, ys))
  {
    MergeSorted(less, xs, ys);
    forall x ensures Class(less, xs + ys, x) == Class(less, Merge(less, xs, ys), x) {
      MergeStable(less, xs, ys, x);
    }
  }

  // ---- taking elements from the front ----

  /** The first k elements of xs go first when none is greater than ys[0]. */
  lemma {:induction false} TakeLeft<T>(less: Less<T>, xs: seq<T>, ys: seq<T>, k: nat)
    requires k <= |xs|
    requires ys != [] ==> forall i :: 0 <= i < k ==> Le(less, xs[i], ys[0])
    ensures Merge(less, xs, ys) == xs[..k] + Merge(less, xs[k..], ys)
  {
    if k == 0 {
      assert xs[k..] == xs;
    } else if ys == [] {
      assert xs == xs[..k] + xs[k..];
    } else {
      assert Le(less, xs[0], ys[0]);
      TakeLeft(less, xs[1..], ys, k - 1);
      assert xs[1..][k - 1..] == xs[k..];
      assert xs[..k] == [xs[0]] + xs[1..][..k - 1];
      Associate([xs[0]], xs[1..][..k - 1], Merge(less, xs[k..], ys));
    }
  }

  /** The first k elements of ys go first when all are less than xs[0]. */
  lemma {:induction false} TakeRight<T>(less: Less<T>, xs: seq<T>, ys: seq<T>, k: nat)
    requires k <= |ys|
    requires xs != [] ==> forall i :: 0 <= i < k ==> less(ys[i], xs[0])
    ensures Merge(less, xs, ys) == ys[..k] + Merge(less, xs, ys[k..])
  {
    if k == 0 {
      assert ys[k..] == ys;
    } else if xs == [] {
      assert ys == ys[..k] + ys[k..];
    } else {
      TakeRight(less, xs, ys[1..], k - 1);
      assert ys[1..][k - 1..] == ys[k..];
      assert ys[..k] == [ys[0]] + ys[1..][..k - 1];
      Associate([ys[0]], ys[1..][..k - 1], Merge(less, xs, ys[k..]));
    }
  }

  // ---- taking elements from the back ----

  /** The first of a run is not beyond its last. */
  lemma FirstLast<T(!new)>(less: Less<T>, s: seq<T>)
    requires StrictWeak(less) && Sorted(less, s) && s != []
    ensures Le(less, s[0], s[|s| - 1])
  {
    assert Le(less, s[0], s[0]);
  }

  /** The greatest element goes last; xs's one only when it is strictly greater. */
  lemma {:induction false} LastLeft<T(!new)>(less: Less<T>, xs: seq<T>, ys: seq<T>)
    requires StrictWeak(less) && Sorted(less, xs) && Sorted(less, ys) && xs != []
    requires ys != [] ==> less(ys[|ys| - 1], xs[|xs| - 1])
    ensures Merge(less, xs, ys) == Merge(less, xs[..|xs| - 1], ys) + [xs[|xs| - 1]]
    decreases |xs| + |ys|
  {
    var n := |xs| - 1;
    var front := xs[..n];
    if ys == [] {
      assert xs == front + [xs[n]];
    } else if less(ys[0], xs[0]) {
      LastLeft(less, xs, ys[1..]);
      assert Merge(less, front, ys) == [ys[0]] + Merge(less, front, ys[1..]);
      Associate([ys[0]], Merge(less, front, ys[1..]), [xs[n]]);
    } else {
      LastLeftOfTwo(less, xs, ys);
      LastLeft(less, xs[1..], ys);
      assert xs[1..][..n - 1] == front[1..];
      assert Merge(less, front, ys) == [xs[0]] + Merge(less, front[1..], ys);
      Associate([xs[0]], Merge(less, front[1..], ys), [xs[n]]);
    }
  }

  lemma LastLeftOfTwo<T(!new)>(less: Less<T>, xs: seq<T>, ys: seq<T>)
    requires StrictWeak(less) && Sorted(less, ys) && xs != [] && ys != []
    requires less(ys[|ys| - 1], xs[|xs| - 1]) && Le(less, xs[0], ys[0])
    ensures |xs| > 1
  {
    FirstLast(less, ys);
  }

  lemma {:induction false} LastRight<T(!new)>(less: Less<T>, xs: seq<T>, ys: seq<T>)
    requires StrictWeak(less) && Sorted(less, xs) && Sorted(less, ys) && ys != []
    requires xs != [] ==> Le(less, xs[|xs| - 1], ys[|ys| - 1])
    ensures Merge(less, xs, ys) == Merge(less, xs, ys[..|ys| - 1]) + [ys[|ys| - 1]]
    decreases |xs| + |ys|
  {
    var m := |ys| - 1;
    var front := ys[..m];
    if xs == [] {
      assert ys == front + [ys[m]];
    } else if less(ys[0], xs[0]) {
      LastRightOfTwo(less, xs, ys);
      LastRight(less, xs, ys[1..]);
      assert ys[1..][..m - 1] == front[1..];
      assert Merge(less, xs, front) == [ys[0]] + Merge(less, xs, front[1..]);
      Associate([ys[0]], Merge(less, xs, front[1..]), [ys[m]]);
    } else {
      LastRight(less, xs[1..], ys);
      assert Merge(less, xs, front) == [xs[0]] + Merge(less, xs[1..], front);
      Associate([xs[0]], Merge(less, xs[1..], front), [ys[m]]);
    }
  }

  lemma LastRightOfTwo<T(!new)>(less: Less<T>, xs: seq<T>, ys: seq<T>)
    requires StrictWeak(less) && Sorted(less, xs) && xs != [] && ys != []
    requires Le(less, xs[|xs| - 1], ys[|ys| - 1]) && less(ys[0], xs[0])
    ensures |ys| > 1
  {
    FirstLast(less, xs);
  }

  /** The elements of xs from k on go last when all are greater than the last of ys. */
  lemma {:induction false} TakeLeftBack<T(!new)>(less: Less<T>, xs: seq<T>, ys: seq<T>, k: nat)
    requires StrictWeak(less) && Sorted(less, xs) && Sorted(less, ys) && k <= |xs|
    requires ys != [] ==> forall i :: k <= i < |xs| ==> less(ys[|ys| - 1], xs[i])
    ensures Merge(less, xs, ys) == Merge(less, xs[..k], ys) + xs[k..]
    decreases |xs|
  {
    var n := |xs| - 1;
    if k == |xs| {
      assert xs[..k] == xs;
    } else {
      LastLeft(less, xs, ys);
      TakeLeftBack(less, xs[..n], ys, k);
      LastApart(xs, n, k);
      Associate(Merge(less, xs[..k], ys), xs[..n][k..], [xs[n]]);
    }
  }

  /** The elements of ys from k on go last when none is less than the last of xs. */
  lemma {:induction false} TakeRightBack<T(!new)>(less: Less<T>, xs: seq<T>, ys: seq<T>, k: nat)
    requires StrictWeak(less) && Sorted(less, xs) && Sorted(less, ys) && k <= |ys|
    requires xs != [] ==> forall i :: k <= i < |ys| ==> Le(less, xs[|xs| - 1], ys[i])
    ensures Merge(less, xs, ys) == Merge(less, xs, ys[..k]) + ys[k..]
    decreases |ys|
  {
    var m := |ys| - 1;
    if k == |ys| {
      assert ys[..k] == ys;
    } else {
      LastRight(less, xs, ys);
      TakeRightBack(less, xs, ys[..m], k);
      LastApart(ys, m, k);
      Associate(Merge(less, xs, ys[..k]), ys[..m][k..], [ys[m]]);
    }
  }
}
