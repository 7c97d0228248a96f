/**
  The two in-place merges, with galloping. Merger is the part of a TimSort object the
  merges work on: the array, the comparison, the temporary storage and the adaptive
  galloping threshold, which only ever affects speed.
 */
module InPlaceMerge {
  import opened Ordering
  import opened Copying
  import opened Galloping
  import opened Rearranging
  import opened MergeSteps

  const MIN_GALLOP := 7

  class Merger<T(!new)> {
    const a: array<T>
    const less: Less<T>
    var minGallop: int
    var tmp: seq<T>

    constructor (a: array<T>, less: Less<T>)
      ensures this.a == a && this.less == less && minGallop == MIN_GALLOP
    {
      this.a, this.less, minGallop, tmp := a, less, MIN_GALLOP, [];
    }

    // ---- mergeLo ----

    /** Move n elements of run 2 down to dest. */
    method LoMoveRight(k: LoCursors, n: nat, ghost R: seq<T>) returns (k': LoCursors)
      requires StrictWeak(less) && Lo(less, a[..], tmp, k, R)
      requires HeadLess(less, a[..][k.c2..k.end], n, tmp[k.c1])
      modifies a
      ensures k' == LoRightTaken(k, n) && Lo(less, a[..], tmp, k', R)
      ensures k'.c2 < k.end ==> a[k'.c2] == old(a[k'.c2])
    {
      ghost var s := a[..];
      k' := LoRightTaken(k, n);
      CopyLeft(a, k.c2, k.c2 + n, k.dest);
      assert a[..] == Splice(s, k.dest, s[k.c2..k.c2 + n]);
      LoRight(less, s, tmp, k, R, n);
    }

    /** Copy n elements of run 1 from tmp to dest. */
    method LoMoveLeft(k: LoCursors, n: nat, ghost R: seq<T>) returns (k': LoCursors)
      requires StrictWeak(less) && Lo(less, a[..], tmp, k, R) && k.c1 + n < |tmp| && k.c2 < k.end
      requires HeadLe(less, tmp[k.c1..], n, a[k.c2])
      modifies a
      ensures k' == LoLeftTaken(k, n) && Lo(less, a[..], tmp, k', R)
      ensures a[k.c2] == old(a[k.c2])
    {
      ghost var s := a[..];
      k' := LoLeftTaken(k, n);
      CopyIn(a, k.dest, tmp[k.c1..k.c1 + n]);
      LoLeft(less, s, tmp, k, R, n);
      assert a[..][k.c2] == s[k.c2];
    }

    /** At least two elements of run 1 and one of run 2 are left. */
    ghost predicate LoOpen(k: LoCursors)
      reads this
    {
      k.c1 + 1 < |tmp| && k.c2 < k.end
    }

    /** Just one element of run 1 is left, or else nothing of run 2. */
    ghost predicate LoDone(k: LoCursors)
      reads this
    {
      if k.c1 + 1 == |tmp| then k.c2 < k.end else k.c2 == k.end
    }

    /** One element at a time until one run has won often enough in a row. */
    method LoLinear(k0: LoCursors, gallop: int, ghost R: seq<T>) returns (k: LoCursors, finished: bool)
      requires StrictWeak(less) && Lo(less, a[..], tmp, k0, R) && LoOpen(k0)
      modifies a
      ensures Lo(less, a[..], tmp, k, R) && k.end == k0.end && k.dest > k0.dest
      ensures if finished then LoDone(k) else LoOpen(k)
    {
      k := k0;
      var count1, count2 := 0, 0;
      while true
        invariant Lo(less, a[..], tmp, k, R) && LoOpen(k) && k.end == k0.end && k.dest >= k0.dest
        decreases k.end - k.dest
      {
        CompareSign(less, a[k.c2], tmp[k.c1]);
        if Compare(less, a[k.c2], tmp[k.c1]) < 0 {
          k := LoMoveRight(k, 1, R);
          count1, count2 := 0, count2 + 1;
          if k.c2 == k.end { return k, true; }
        } else {
          k := LoMoveLeft(k, 1, R);
          count1, count2 := count1 + 1, 0;
          if k.c1 + 1 == |tmp| { return k, true; }
        }
        // one of the two counts is 0, so their bitwise or is their sum
        if count1 + count2 >= gallop { return k, false; }
      }
    }

    /** Gallop in run 1: copy what goes before the next element of run 2, then move that element. */
    method LoBlockLeft(k0: LoCursors, ghost R: seq<T>) returns (k: LoCursors, count: nat, finished: bool)
      requires StrictWeak(less) && Lo(less, a[..], tmp, k0, R) && LoOpen(k0)
      modifies a
      ensures Lo(less, a[..], tmp, k, R) && k.end == k0.end && k.dest > k0.dest
      ensures k.c1 == k0.c1 + count
      ensures if finished then LoDone(k) else LoOpen(k)
    {
      k := k0;
      assert a[k.c2] == a[..][k.c2..k.end][0];
      count := GallopRight(less, a[k.c2], tmp[k.c1..], 0);
      assert k.c1 + count < |tmp| by { assert !Le(less, tmp[k.c1..][|tmp| - 1 - k.c1], a[k.c2]); }
      ghost var next := tmp[k.c1..][count];
      if count != 0 {
        k := LoMoveLeft(k, count, R);
        if k.c1 + 1 >= |tmp| { return k, count, true; }
      }
      k := LoMoveRight(k, 1, R);
      finished := k.c2 == k.end;
    }

    /** Gallop in run 2: move what goes before the next element of run 1, then copy that element. */
    method LoBlockRight(k0: LoCursors, ghost R: seq<T>) returns (k: LoCursors, count: nat, finished: bool)
      requires StrictWeak(less) && Lo(less, a[..], tmp, k0, R) && LoOpen(k0)
      modifies a
      ensures Lo(less, a[..], tmp, k, R) && k.end == k0.end && k.dest > k0.dest
      ensures k.c2 == k0.c2 + count
      ensures if finished then LoDone(k) else LoOpen(k)
    {
      k := k0;
      assert a[..][k.c2..k.end] == a[k.c2..k.end];
      count := GallopLeft(less, tmp[k.c1], a[k.c2..k.end], 0);
      assert k.c2 + count < k.end ==>
        Le(less, tmp[k.c1], a[k.c2..k.end][count]) && a[k.c2..k.end][count] == a[k.c2 + count];
      if count != 0 {
        k := LoMoveRight(k, count, R);
        if k.c2 == k.end { return k, count, true; }
      }
      assert tmp[k.c1..][0] == tmp[k.c1] && Le(less, tmp[k.c1], a[k.c2]);
      k := LoMoveLeft(k, 1, R);
      finished := k.c1 + 1 == |tmp|;
    }

    /** Whole blocks at a time until neither run yields a long one. */
    method LoGallop(k0: LoCursors, gallop0: int, ghost R: seq<T>) returns (k: LoCursors, gallop: int, finished: bool)
      requires StrictWeak(less) && Lo(less, a[..], tmp, k0, R) && LoOpen(k0)
      modifies a
      ensures Lo(less, a[..], tmp, k, R) && k.end == k0.end && k.dest > k0.dest
      ensures if finished then LoDone(k) else LoOpen(k)
    {
      k, gallop := k0, gallop0;
      while true
        invariant Lo(less, a[..], tmp, k, R) && LoOpen(k) && k.end == k0.end && k.dest >= k0.dest
        decreases k.end - k.dest
      {
        var count1, count2;
        k, count1, finished := LoBlockLeft(k, R);
        if finished { return; }
        k, count2, finished := LoBlockRight(k, R);
        if finished { return; }
        gallop := gallop - 1;
        if !(count1 >= MIN_GALLOP || count2 >= MIN_GALLOP) { return; }
      }
    }

    method LoLoop(k0: LoCursors, ghost R: seq<T>) returns (k: LoCursors)
      requires StrictWeak(less) && Lo(less, a[..], tmp, k0, R) && LoOpen(k0)
      modifies a, this`minGallop
      ensures Lo(less, a[..], tmp, k, R) && LoDone(k)
    {
      k := k0;
      var gallop := minGallop;
      while true
        invariant Lo(less, a[..], tmp, k, R) && LoOpen(k)
        decreases k.end - k.dest
      {
        var finished;
        k, finished := LoLinear(k, gallop, R);
        if finished { break; }
        k, gallop, finished := LoGallop(k, gallop, R);
        if finished { break; }
        gallop := (if gallop < 0 then 0 else gallop) + 2;
      }
      minGallop := if gallop < 1 then gallop else 1;
    }

    /** Only one run is left; in particular run 1 never runs out first. */
    method LoFinish(k: LoCursors, ghost R: seq<T>)
      requires StrictWeak(less) && Lo(less, a[..], tmp, k, R) && (k.c1 + 1 == |tmp| || k.c2 == k.end)
      modifies a
      ensures a[..] == R
    {
      if k.c1 + 1 == |tmp| {
        LoEndRight(less, a[..], tmp, k, R);
        CopyLeft(a, k.c2, k.end, k.dest);
        a[k.end - 1] := tmp[k.c1];
      } else {
        LoEndLeft(less, a[..], tmp, k, R);
        CopyIn(a, k.dest, tmp[k.c1..]);
      }
    }

    method MergeLo(base1: nat, len1: nat, base2: nat, len2: nat)
      requires StrictWeak(less) && base1 + len1 == base2 && base2 + len2 <= a.Length
      requires LoReady(less, a[..][base1..base2], a[..][base2..base2 + len2])
      requires HeadLess(less, a[..][base2..base2 + len2], 1, a[base1])
      modifies a, this
      ensures Rearranged(less, old(a[..]), a[..], base1, base2 + len2)
      ensures Sorted(less, a[..][base1..base2 + len2])
    {
      ghost var R := LoBegin(less, a[..], base1, base2, base2 + len2);
      tmp := a[base1..base2];
      assert a[..][base1..base2] == tmp;
      var k := LoCursors(0, base2, base1, base2 + len2);
      k := LoMoveRight(k, 1, R);
      if k.c2 < k.end && k.c1 + 1 < |tmp| {
        k := LoLoop(k, R);
      }
      LoFinish(k, R);
    }

    // ---- mergeHi ----

    /** Move the last n elements of run 1 up to dest. */
    method HiMoveLeft(k: HiCursors, n: nat, ghost R: seq<T>) returns (k': HiCursors)
      requires StrictWeak(less) && Hi(less, a[..], tmp, k, R) && n <= k.c1 - k.base
      requires TailGreater(less, a[..][k.base..k.c1], k.c1 - k.base - n, tmp[k.c2 - 1])
      modifies a
      ensures k' == HiLeftTaken(k, n) && Hi(less, a[..], tmp, k', R)
      ensures k.base < k'.c1 ==> a[k'.c1 - 1] == old(a[k'.c1 - 1])
    {
      ghost var s := a[..];
      k' := HiLeftTaken(k, n);
      CopyAny(a, k.c1 - n, k.c1, k.dest - n);
      assert a[..] == Splice(s, k.dest - n, s[k.c1 - n..k.c1]);
      HiLeft(less, s, tmp, k, R, n);
    }

    /** Copy the last n elements left of run 2 from tmp to dest. */
    method HiMoveRight(k: HiCursors, n: nat, ghost R: seq<T>) returns (k': HiCursors)
      requires StrictWeak(less) && Hi(less, a[..], tmp, k, R) && n < k.c2 && k.base < k.c1
      requires TailGe(less, tmp[..k.c2], k.c2 - n, a[k.c1 - 1])
      modifies a
      ensures k' == HiRightTaken(k, n) && Hi(less, a[..], tmp, k', R)
      ensures a[k.c1 - 1] == old(a[k.c1 - 1])
    {
      ghost var s := a[..];
      k' := HiRightTaken(k, n);
      CopyIn(a, k.dest - n, tmp[k.c2 - n..k.c2]);
      HiRight(less, s, tmp, k, R, n);
      assert a[..][k.c1 - 1] == s[k.c1 - 1];
    }

    /** At least one element of run 1 and two of run 2 are left. */
    ghost predicate HiOpen(k: HiCursors) {
      k.base < k.c1 && 1 < k.c2
    }

    /** Just one element of run 2 is left, or else nothing of run 1. */
    ghost predicate HiDone(k: HiCursors) {
      if k.c2 == 1 then k.base < k.c1 else k.base == k.c1
    }

    /** One element at a time until one run has won often enough in a row. */
    method HiLinear(k0: HiCursors, gallop: int, ghost R: seq<T>) returns (k: HiCursors, finished: bool)
      requires StrictWeak(less) && Hi(less, a[..], tmp, k0, R) && HiOpen(k0)
      modifies a
      ensures Hi(less, a[..], tmp, k, R) && k.base == k0.base && k.dest < k0.dest
      ensures if finished then HiDone(k) else HiOpen(k)
    {
      k := k0;
      var count1, count2 := 0, 0;
      while true
        invariant Hi(less, a[..], tmp, k, R) && HiOpen(k) && k.base == k0.base && k.dest <= k0.dest
        decreases k.dest
      {
        CompareSign(less, tmp[k.c2 - 1], a[k.c1 - 1]);
        if Compare(less, tmp[k.c2 - 1], a[k.c1 - 1]) < 0 {
          k := HiMoveLeft(k, 1, R);
          count1, count2 := count1 + 1, 0;
          if k.c1 == k.base { return k, true; }
        } else {
          k := HiMoveRight(k, 1, R);
          count1, count2 := 0, count2 + 1;
          if k.c2 == 1 { return k, true; }
        }
        if count1 + count2 >= gallop { return k, false; }
      }
    }

    /** Gallop in run 1: move what goes after the last of run 2, then copy that element. */
    method HiBlockLeft(k0: HiCursors, ghost R: seq<T>) returns (k: HiCursors, count: nat, finished: bool)
      requires StrictWeak(less) && Hi(less, a[..], tmp, k0, R) && HiOpen(k0)
      modifies a
      ensures Hi(less, a[..], tmp, k, R) && k.base == k0.base && k.dest < k0.dest
      ensures k.c1 == k0.c1 - count
      ensures if finished then HiDone(k) else HiOpen(k)
    {
      k := k0;
      ghost var run := a[..][k.base..k.c1];
      assert run == a[k.base..k.c1];
      var keep := GallopRight(less, tmp[k.c2 - 1], a[k.base..k.c1], k.c1 - k.base - 1);
      count := k.c1 - k.base - keep;
      assert keep > 0 ==> Le(less, run[keep - 1], tmp[k.c2 - 1]) && run[keep - 1] == a[k.c1 - count - 1];
      if count != 0 {
        k := HiMoveLeft(k, count, R);
        if k.c1 == k.base { return k, count, true; }
      }
      k := HiMoveRight(k, 1, R);
      finished := k.c2 == 1;
    }

    /** Gallop in run 2: copy what goes after the last of run 1, then move that element. */
    method HiBlockRight(k0: HiCursors, ghost R: seq<T>) returns (k: HiCursors, count: nat, finished: bool)
      requires StrictWeak(less) && Hi(less, a[..], tmp, k0, R) && HiOpen(k0)
      modifies a
      ensures Hi(less, a[..], tmp, k, R) && k.base == k0.base && k.dest < k0.dest
      ensures k.c2 == k0.c2 - count
      ensures if finished then HiDone(k) else HiOpen(k)
    {
      k := k0;
      assert a[k.c1 - 1] == a[..][k.base..k.c1][k.c1 - k.base - 1];
      var keep := GallopLeft(less, a[k.c1 - 1], tmp[..k.c2], k.c2 - 1);
      assert keep > 0 by { assert !Le(less, a[k.c1 - 1], tmp[..k.c2][0]); }
      count := k.c2 - keep;
      ghost var next := tmp[..k.c2][keep - 1];
      if count != 0 {
        k := HiMoveRight(k, count, R);
        if k.c2 <= 1 { return k, count, true; }
      }
      k := HiMoveLeft(k, 1, R);
      finished := k.c1 == k.base;
    }

    /** Whole blocks at a time until neither run yields a long one. */
    method HiGallop(k0: HiCursors, gallop0: int, ghost R: seq<T>) returns (k: HiCursors, gallop: int, finished: bool)
      requires StrictWeak(less) && Hi(less, a[..], tmp, k0, R) && HiOpen(k0)
      modifies a
      ensures Hi(less, a[..], tmp, k, R) && k.base == k0.base && k.dest < k0.dest
      ensures if finished then HiDone(k) else HiOpen(k)
    {
      k, gallop := k0, gallop0;
      while true
        invariant Hi(less, a[..], tmp, k, R) && HiOpen(k) && k.base == k0.base && k.dest <= k0.dest
        decreases k.dest
      {
        var count1, count2;
        k, count1, finished := HiBlockLeft(k, R);
        if finished { return; }
        k, count2, finished := HiBlockRight(k, R);
        if finished { return; }
        gallop := gallop - 1;
        if !(count1 >= MIN_GALLOP || count2 >= MIN_GALLOP) { return; }
      }
    }

    method HiLoop(k0: HiCursors, ghost R: seq<T>) returns (k: HiCursors)
      requires StrictWeak(less) && Hi(less, a[..], tmp, k0, R) && HiOpen(k0)
      modifies a, this`minGallop
      ensures Hi(less, a[..], tmp, k, R) && HiDone(k)
    {
      k := k0;
      var gallop := minGallop;
      while true
        invariant Hi(less, a[..], tmp, k, R) && HiOpen(k)
        decreases k.dest
      {
        var finished;
        k, finished := HiLinear(k, gallop, R);
        if finished { break; }
        k, gallop, finished := HiGallop(k, gallop, R);
        if finished { break; }
        gallop := (if gallop < 0 then 0 else gallop) + 2;
      }
      minGallop := if gallop < 1 then gallop else 1;
    }

    /** Only one run is left; in particular run 2 never runs out first. */
    method HiFinish(k: HiCursors, ghost R: seq<T>)
      requires StrictWeak(less) && Hi(less, a[..], tmp, k, R) && (k.c2 == 1 || k.c1 == k.base)
      modifies a
      ensures a[..] == R
    {
      if k.c2 == 1 {
        HiEndLeft(less, a[..], tmp, k, R);
        CopyAny(a, k.base, k.c1, k.base + 1);
        a[k.base] := tmp[0];
      } else {
        HiEndRight(less, a[..], tmp, k, R);
        CopyIn(a, k.base, tmp[..k.c2]);
      }
    }

    method MergeHi(base1: nat, len1: nat, base2: nat, len2: nat)
      requires StrictWeak(less) && base1 + len1 == base2 && base2 + len2 <= a.Length && len1 > 0
      requires HiReady(less, a[..][base1..base2], a[..][base2..base2 + len2])
      requires TailGreater(less, a[..][base1..base2], len1 - 1, a[base2 + len2 - 1])
      modifies a, this
      ensures Rearranged(less, old(a[..]), a[..], base1, base2 + len2)
      ensures Sorted(less, a[..][base1..base2 + len2])
    {
      ghost var R := HiBegin(less, a[..], base1, base2, base2 + len2);
      tmp := a[base2..base2 + len2];
      assert a[..][base2..base2 + len2] == tmp;
      var k := HiCursors(base1, base2, len2, base2 + len2);
      k := HiMoveLeft(k, 1, R);
      if k.base < k.c1 && 1 < k.c2 {
        k := HiLoop(k, R);
      }
      HiFinish(k, R);
    }
  }
}
