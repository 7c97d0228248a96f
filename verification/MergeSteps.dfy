/**
  What the two in-place merges keep. Both hold one run in tmp and the other in the
  array; the cells between the cursors are free. Outside the range still to be filled
  the array is final, and the stable merge of what is left is what belongs there.
 */
module MergeSteps {
  import opened Ordering
  import opened Merging
  import opened Copying
  import opened Rearranging

  /**
    Where a mergeLo stands: what is left of run 1 is tmp[c1..], of run 2 the cells
    c2..end of the array, and dest is the next cell to fill.
   */
  datatype LoCursors = LoCursors(c1: int, c2: int, dest: int, end: int)

  /**
    Where a mergeHi stands, with every position one past the element it stands for:
    what is left of run 1 is base..c1, of run 2 tmp[..c2], and dest - 1 is the next
    cell to fill.
   */
  datatype HiCursors = HiCursors(base: int, c1: int, c2: int, dest: int)

  /** The first n elements of s are less than x. */
  ghost predicate HeadLess<T>(less: Less<T>, s: seq<T>, n: int, x: T) {
    n <= |s| && forall i :: 0 <= i < n ==> less(s[i], x)
  }

  /** None of the first n elements of s is greater than x. */
  ghost predicate HeadLe<T>(less: Less<T>, s: seq<T>, n: int, x: T) {
    n <= |s| && forall i :: 0 <= i < n ==> Le(less, s[i], x)
  }

  /** The elements of s from n on are greater than x. */
  ghost predicate TailGreater<T>(less: Less<T>, s: seq<T>, n: int, x: T) {
    0 <= n <= |s| && forall i :: n <= i < |s| ==> less(x, s[i])
  }

  /** None of the elements of s from n on is less than x. */
  ghost predicate TailGe<T>(less: Less<T>, s: seq<T>, n: int, x: T) {
    0 <= n <= |s| && forall i :: n <= i < |s| ==> Le(less, x, s[i])
  }

  /** The merge of two runs is the sorted and stable rearrangement of their concatenation, and there is no other. */
  lemma IsMerge<T(!new)>(less: Less<T>, xs: seq<T>, ys: seq<T>, rest: seq<T>)
    requires StrictWeak(less) && Sorted(less, xs) && Sorted(less, ys)
    ensures Sorted(less, rest) && Stable(less, xs + ys, rest) <==> rest == Merge(less, xs, ys)
  {
    MergeSortsStably(less, xs, ys);
    if Sorted(less, rest) && Stable(less, xs + ys, rest) {
      StableTransposed(less, xs + ys, rest, Merge(less, xs, ys));
      SortedStableUnique(less, rest, Merge(less, xs, ys));
    }
  }

  lemma Merged<T(!new)>(less: Less<T>, xs: seq<T>, ys: seq<T>) returns (m: seq<T>)
    requires StrictWeak(less) && Sorted(less, xs) && Sorted(less, ys)
    ensures Sorted(less, m) && Stable(less, xs + ys, m) && m == Merge(less, xs, ys)
  {
    m := Merge(less, xs, ys);
    MergeSortsStably(less, xs, ys);
  }

  lemma StableTransposed<T(!new)>(less: Less<T>, s: seq<T>, t: seq<T>, u: seq<T>)
    requires Stable(less, s, t) && Stable(less, s, u)
    ensures Stable(less, t, u)
  {
    forall x ensures Class(less, t, x) == Class(less, u, x) {
      assert Class(less, s, x) == Class(less, t, x) && Class(less, s, x) == Class(less, u, x);
    }
  }

  lemma SliceOfSlice<T>(s: seq<T>, lo: int, hi: int, n: nat)
    requires 0 <= lo <= lo + n <= hi <= |s|
    ensures s[lo..hi][..n] == s[lo..lo + n] && s[lo..hi][n..] == s[lo + n..hi]
  {
  }

  /** Outside from..to, s is final. */
  ghost predicate Final<T>(s: seq<T>, from: int, to: int, R: seq<T>) {
    |s| == |R| && forall i :: 0 <= i < |s| && !(from <= i < to) ==> s[i] == R[i]
  }

  lemma FinalUp<T>(s: seq<T>, from: int, to: int, R: seq<T>, n: nat)
    requires 0 <= from <= from + n <= to <= |s| && Final(s, from, to, R)
    ensures Final(Splice(s, from, R[from..from + n]), from + n, to, R)
  {
  }

  lemma FinalDown<T>(s: seq<T>, from: int, to: int, R: seq<T>, n: nat)
    requires 0 <= from <= to - n <= to <= |s| && Final(s, from, to, R)
    ensures Final(Splice(s, to - n, R[to - n..to]), from, to - n, R)
  {
  }

  /** The last piece: nothing is left to fill. */
  lemma FinalAll<T>(s: seq<T>, from: int, to: int, R: seq<T>)
    requires 0 <= from <= to <= |s| && Final(s, from, to, R)
    ensures Splice(s, from, R[from..to]) == R
  {
  }

  // ---- mergeLo: run 1 in tmp, output grows upwards ----

  ghost predicate LoShape(k: LoCursors, size: int, tmpSize: int) {
    0 <= k.c1 < tmpSize && 0 <= k.dest && k.dest + (tmpSize - k.c1) == k.c2 <= k.end <= size
  }

  /** Two runs, the last of xs above all of ys. */
  ghost predicate LoReady<T>(less: Less<T>, xs: seq<T>, ys: seq<T>) {
    && xs != [] && Sorted(less, xs) && Sorted(less, ys)
    && HeadLess(less, ys, |ys|, xs[|xs| - 1])
  }

  /** rest is what the two runs merge to. */
  ghost predicate LoRest<T(!new)>(less: Less<T>, xs: seq<T>, ys: seq<T>, rest: seq<T>) {
    LoReady(less, xs, ys) && Sorted(less, rest) && Stable(less, xs + ys, rest)
  }

  ghost predicate Lo<T(!new)>(less: Less<T>, s: seq<T>, tmp: seq<T>, k: LoCursors, R: seq<T>) {
    && LoShape(k, |s|, |tmp|)
    && Final(s, k.dest, k.end, R)
    && LoRest(less, tmp[k.c1..], s[k.c2..k.end], R[k.dest..k.end])
  }

  function LoRightTaken(k: LoCursors, n: int): LoCursors {
    k.(c2 := k.c2 + n, dest := k.dest + n)
  }

  function LoLeftTaken(k: LoCursors, n: int): LoCursors {
    k.(c1 := k.c1 + n, dest := k.dest + n)
  }

  /** The array with the range replaced by what its two runs merge to. */
  lemma MergedIn<T(!new)>(less: Less<T>, s: seq<T>, base1: nat, base2: nat, end: nat, m: seq<T>) returns (R: seq<T>)
    requires base1 <= base2 <= end <= |s| && Sorted(less, m) && Stable(less, s[base1..base2] + s[base2..end], m)
    ensures base1 + |m| == end && R == Splice(s, base1, m)
    ensures Rearranged(less, s, R, base1, end) && Sorted(less, R[base1..end])
  {
    R := Splice(s, base1, m);
    assert s[base1..end] == s[base1..base2] + s[base2..end];
    SpliceRearranged(less, s, base1, m);
  }

  lemma LoStart<T(!new)>(less: Less<T>, s: seq<T>, base1: nat, base2: nat, end: nat, m: seq<T>)
    requires base1 <= base2 <= end <= |s| && LoRest(less, s[base1..base2], s[base2..end], m)
    ensures base1 + |m| == end
    ensures Lo(less, s, s[base1..base2], LoCursors(0, base2, base1, end), Splice(s, base1, m))
  {
    SpliceParts(s, base1, m, 0, base1);
    assert Splice(s, base1, m)[base1..end] == m;
    assert s[base1..base2][0..] == s[base1..base2];
  }

  /** Fix the result to be reached; at the start nothing is done. */
  lemma LoBegin<T(!new)>(less: Less<T>, s: seq<T>, base1: nat, base2: nat, end: nat) returns (R: seq<T>)
    requires StrictWeak(less) && base1 <= base2 <= end <= |s| && LoReady(less, s[base1..base2], s[base2..end])
    ensures Lo(less, s, s[base1..base2], LoCursors(0, base2, base1, end), R)
    ensures Rearranged(less, s, R, base1, end) && Sorted(less, R[base1..end])
  {
    var m := Merged(less, s[base1..base2], s[base2..end]);
    R := MergedIn(less, s, base1, base2, end, m);
    LoStart(less, s, base1, base2, end, m);
  }

  /** n elements of run 2, all less than the next of run 1, may go next. */
  lemma LoRestRight<T(!new)>(less: Less<T>, xs: seq<T>, ys: seq<T>, rest: seq<T>, n: nat)
    requires StrictWeak(less) && LoRest(less, xs, ys, rest) && HeadLess(less, ys, n, xs[0])
    ensures |rest| == |xs| + |ys| && rest[..n] == ys[..n] && LoRest(less, xs, ys[n..], rest[n..])
  {
    IsMerge(less, xs, ys, rest);
    TakeRight(less, xs, ys, n);
    IsMerge(less, xs, ys[n..], rest[n..]);
  }

  /** n elements of run 1, none greater than the next of run 2, may go next. */
  lemma LoRestLeft<T(!new)>(less: Less<T>, xs: seq<T>, ys: seq<T>, rest: seq<T>, n: nat)
    requires StrictWeak(less) && LoRest(less, xs, ys, rest) && n < |xs| && ys != [] && HeadLe(less, xs, n, ys[0])
    ensures |rest| == |xs| + |ys| && rest[..n] == xs[..n] && LoRest(less, xs[n..], ys, rest[n..])
  {
    IsMerge(less, xs, ys, rest);
    TakeLeft(less, xs, ys, n);
    IsMerge(less, xs[n..], ys, rest[n..]);
  }

  /** Writing the next n elements of R at dest keeps the invariant, whichever run they came from. */
  lemma LoWrite<T(!new)>(less: Less<T>, s: seq<T>, tmp: seq<T>, k: LoCursors, R: seq<T>, n: nat, k': LoCursors)
    requires LoShape(k, |s|, |tmp|) && Final(s, k.dest, k.end, R)
    requires LoShape(k', |s|, |tmp|) && k'.dest == k.dest + n && k'.end == k.end
    requires LoRest(less, tmp[k'.c1..], s[k'.c2..k.end], R[k'.dest..k.end])
    ensures Lo(less, Splice(s, k.dest, R[k.dest..k.dest + n]), tmp, k', R)
  {
    FinalUp(s, k.dest, k.end, R, n);
    SpliceParts(s, k.dest, R[k.dest..k.dest + n], k'.c2, k.end);
  }

  lemma LoRightNext<T(!new)>(less: Less<T>, s: seq<T>, tmp: seq<T>, k: LoCursors, R: seq<T>, n: nat)
    requires StrictWeak(less) && Lo(less, s, tmp, k, R)
    requires HeadLess(less, s[k.c2..k.end], n, tmp[k.c1])
    ensures s[k.c2..k.c2 + n] == R[k.dest..k.dest + n]
    ensures LoRest(less, tmp[k.c1..], s[k.c2 + n..k.end], R[k.dest + n..k.end])
  {
    LoRestRight(less, tmp[k.c1..], s[k.c2..k.end], R[k.dest..k.end], n);
    SliceOfSlice(s, k.c2, k.end, n);
    SliceOfSlice(R, k.dest, k.end, n);
  }

  lemma LoLeftNext<T(!new)>(less: Less<T>, s: seq<T>, tmp: seq<T>, k: LoCursors, R: seq<T>, n: nat)
    requires StrictWeak(less) && Lo(less, s, tmp, k, R) && k.c1 + n < |tmp| && k.c2 < k.end
    requires HeadLe(less, tmp[k.c1..], n, s[k.c2])
    ensures tmp[k.c1..k.c1 + n] == R[k.dest..k.dest + n]
    ensures LoRest(less, tmp[k.c1 + n..], s[k.c2..k.end], R[k.dest + n..k.end])
  {
    LoRestLeft(less, tmp[k.c1..], s[k.c2..k.end], R[k.dest..k.end], n);
    assert tmp[k.c1..][..n] == tmp[k.c1..k.c1 + n] && tmp[k.c1..][n..] == tmp[k.c1 + n..];
    SliceOfSlice(R, k.dest, k.end, n);
  }

  lemma LoRight<T(!new)>(less: Less<T>, s: seq<T>, tmp: seq<T>, k: LoCursors, R: seq<T>, n: nat)
    requires StrictWeak(less) && Lo(less, s, tmp, k, R)
    requires HeadLess(less, s[k.c2..k.end], n, tmp[k.c1])
    ensures Lo(less, Splice(s, k.dest, s[k.c2..k.c2 + n]), tmp, LoRightTaken(k, n), R)
    ensures k.c2 + n < k.end ==> Splice(s, k.dest, s[k.c2..k.c2 + n])[k.c2 + n] == s[k.c2 + n]
  {
    LoRightNext(less, s, tmp, k, R, n);
    LoWrite(less, s, tmp, k, R, n, LoRightTaken(k, n));
  }

  lemma LoLeft<T(!new)>(less: Less<T>, s: seq<T>, tmp: seq<T>, k: LoCursors, R: seq<T>, n: nat)
    requires StrictWeak(less) && Lo(less, s, tmp, k, R) && k.c1 + n < |tmp| && k.c2 < k.end
    requires HeadLe(less, tmp[k.c1..], n, s[k.c2])
    ensures Lo(less, Splice(s, k.dest, tmp[k.c1..k.c1 + n]), tmp, LoLeftTaken(k, n), R)
  {
    LoLeftNext(less, s, tmp, k, R, n);
    LoWrite(less, s, tmp, k, R, n, LoLeftTaken(k, n));
  }

  /** Run 2 is used up: the rest of tmp fills the gap. */
  lemma LoEndLeft<T(!new)>(less: Less<T>, s: seq<T>, tmp: seq<T>, k: LoCursors, R: seq<T>)
    requires StrictWeak(less) && Lo(less, s, tmp, k, R) && k.c2 == k.end
    ensures Splice(s, k.dest, tmp[k.c1..]) == R
  {
    IsMerge(less, tmp[k.c1..], s[k.c2..k.end], R[k.dest..k.end]);
    FinalAll(s, k.dest, k.end, R);
  }

  /** One element of run 1 is left and it is the greatest. */
  lemma LoEndRight<T(!new)>(less: Less<T>, s: seq<T>, tmp: seq<T>, k: LoCursors, R: seq<T>)
    requires StrictWeak(less) && Lo(less, s, tmp, k, R) && k.c1 + 1 == |tmp|
    ensures Splice(s, k.dest, s[k.c2..k.end])[k.end - 1 := tmp[k.c1]] == R
  {
    var xs, ys := tmp[k.c1..], s[k.c2..k.end];
    IsMerge(less, xs, ys, R[k.dest..k.end]);
    assert xs == [tmp[k.c1]] && HeadLess(less, ys, |ys|, xs[0]);
    TakeRight(less, xs, ys, |ys|);
    assert ys[..|ys|] == ys && ys[|ys|..] == [];
    assert R[k.dest..k.end] == ys + [tmp[k.c1]];
    FinalAll(s, k.dest, k.end, R);
    assert Splice(s, k.dest, ys)[k.end - 1 := tmp[k.c1]] == Splice(s, k.dest, ys + [tmp[k.c1]]);
  }

  // ---- mergeHi: run 2 in tmp, output grows downwards ----

  ghost predicate HiShape(k: HiCursors, size: int, tmpSize: int) {
    0 <= k.base <= k.c1 && 0 < k.c2 <= tmpSize && k.c1 + k.c2 == k.dest <= size
  }

  /** Two runs, the first of ys below all of xs. */
  ghost predicate HiReady<T>(less: Less<T>, xs: seq<T>, ys: seq<T>) {
    && ys != [] && Sorted(less, xs) && Sorted(less, ys)
    && TailGreater(less, xs, 0, ys[0])
  }

  /** rest is what the two runs merge to. */
  ghost predicate HiRest<T(!new)>(less: Less<T>, xs: seq<T>, ys: seq<T>, rest: seq<T>) {
    HiReady(less, xs, ys) && Sorted(less, rest) && Stable(less, xs + ys, rest)
  }

  ghost predicate Hi<T(!new)>(less: Less<T>, s: seq<T>, tmp: seq<T>, k: HiCursors, R: seq<T>) {
    && HiShape(k, |s|, |tmp|)
    && Final(s, k.base, k.dest, R)
    && HiRest(less, s[k.base..k.c1], tmp[..k.c2], R[k.base..k.dest])
  }

  function HiLeftTaken(k: HiCursors, n: int): HiCursors {
    k.(c1 := k.c1 - n, dest := k.dest - n)
  }

  function HiRightTaken(k: HiCursors, n: int): HiCursors {
    k.(c2 := k.c2 - n, dest := k.dest - n)
  }

  lemma HiStart<T(!new)>(less: Less<T>, s: seq<T>, base1: nat, base2: nat, end: nat, m: seq<T>)
    requires base1 <= base2 <= end <= |s| && HiRest(less, s[base1..base2], s[base2..end], m)
    ensures base1 + |m| == end
    ensures Hi(less, s, s[base2..end], HiCursors(base1, base2, end - base2, end), Splice(s, base1, m))
  {
    SpliceParts(s, base1, m, 0, base1);
    assert Splice(s, base1, m)[base1..end] == m;
    assert s[base2..end][..end - base2] == s[base2..end];
  }

  /** Fix the result to be reached; at the start nothing is done. */
  lemma HiBegin<T(!new)>(less: Less<T>, s: seq<T>, base1: nat, base2: nat, end: nat) returns (R: seq<T>)
    requires StrictWeak(less) && base1 <= base2 <= end <= |s| && HiReady(less, s[base1..base2], s[base2..end])
    ensures Hi(less, s, s[base2..end], HiCursors(base1, base2, end - base2, end), R)
    ensures Rearranged(less, s, R, base1, end) && Sorted(less, R[base1..end])
  {
    var m := Merged(less, s[base1..base2], s[base2..end]);
    R := MergedIn(less, s, base1, base2, end, m);
    HiStart(less, s, base1, base2, end, m);
  }

  /** The elements of run 1 from n on, all greater than the last of run 2, may go last. */
  lemma HiRestLeft<T(!new)>(less: Less<T>, xs: seq<T>, ys: seq<T>, rest: seq<T>, n: nat)
    requires StrictWeak(less) && HiRest(less, xs, ys, rest) && TailGreater(less, xs, n, ys[|ys| - 1])
    ensures |rest| == |xs| + |ys| && rest[n + |ys|..] == xs[n..] && HiRest(less, xs[..n], ys, rest[..n + |ys|])
  {
    IsMerge(less, xs, ys, rest);
    TakeLeftBack(less, xs, ys, n);
    IsMerge(less, xs[..n], ys, rest[..n + |ys|]);
  }

  /** The elements of run 2 from n on, none less than the last of run 1, may go last. */
  lemma HiRestRight<T(!new)>(less: Less<T>, xs: seq<T>, ys: seq<T>, rest: seq<T>, n: nat)
    requires StrictWeak(less) && HiRest(less, xs, ys, rest) && n > 0 && xs != []
    requires TailGe(less, ys, n, xs[|xs| - 1])
    ensures |rest| == |xs| + |ys| && rest[|xs| + n..] == ys[n..] && HiRest(less, xs, ys[..n], rest[..|xs| + n])
  {
    IsMerge(less, xs, ys, rest);
    TakeRightBack(less, xs, ys, n);
    IsMerge(less, xs, ys[..n], rest[..|xs| + n]);
  }

  /** Writing the n elements of R that end at dest keeps the invariant. */
  lemma HiWrite<T(!new)>(less: Less<T>, s: seq<T>, tmp: seq<T>, k: HiCursors, R: seq<T>, n: nat, k': HiCursors)
    requires HiShape(k, |s|, |tmp|) && Final(s, k.base, k.dest, R)
    requires HiShape(k', |s|, |tmp|) && k'.dest == k.dest - n && k'.base == k.base
    requires HiRest(less, s[k.base..k'.c1], tmp[..k'.c2], R[k.base..k'.dest])
    ensures Hi(less, Splice(s, k.dest - n, R[k.dest - n..k.dest]), tmp, k', R)
  {
    FinalDown(s, k.base, k.dest, R, n);
    SpliceParts(s, k.dest - n, R[k.dest - n..k.dest], k.base, k'.c1);
  }

  lemma HiLeftNext<T(!new)>(less: Less<T>, s: seq<T>, tmp: seq<T>, k: HiCursors, R: seq<T>, n: nat)
    requires StrictWeak(less) && Hi(less, s, tmp, k, R) && n <= k.c1 - k.base
    requires TailGreater(less, s[k.base..k.c1], k.c1 - k.base - n, tmp[k.c2 - 1])
    ensures s[k.c1 - n..k.c1] == R[k.dest - n..k.dest]
    ensures HiRest(less, s[k.base..k.c1 - n], tmp[..k.c2], R[k.base..k.dest - n])
  {
    var left := k.c1 - k.base - n;
    HiRestLeft(less, s[k.base..k.c1], tmp[..k.c2], R[k.base..k.dest], left);
    SliceOfSlice(s, k.base, k.c1, left);
    SliceOfSlice(R, k.base, k.dest, left + k.c2);
  }

  lemma HiRightNext<T(!new)>(less: Less<T>, s: seq<T>, tmp: seq<T>, k: HiCursors, R: seq<T>, n: nat)
    requires StrictWeak(less) && Hi(less, s, tmp, k, R) && n < k.c2 && k.base < k.c1
    requires TailGe(less, tmp[..k.c2], k.c2 - n, s[k.c1 - 1])
    ensures tmp[k.c2 - n..k.c2] == R[k.dest - n..k.dest]
    ensures HiRest(less, s[k.base..k.c1], tmp[..k.c2 - n], R[k.base..k.dest - n])
  {
    var left := k.c2 - n;
    HiRestRight(less, s[k.base..k.c1], tmp[..k.c2], R[k.base..k.dest], left);
    SliceOfSlice(R, k.base, k.dest, k.c1 - k.base + left);
    assert tmp[..k.c2][left..] == tmp[left..k.c2] && tmp[..k.c2][..left] == tmp[..left];
  }

  lemma HiLeft<T(!new)>(less: Less<T>, s: seq<T>, tmp: seq<T>, k: HiCursors, R: seq<T>, n: nat)
    requires StrictWeak(less) && Hi(less, s, tmp, k, R) && n <= k.c1 - k.base
    requires TailGreater(less, s[k.base..k.c1], k.c1 - k.base - n, tmp[k.c2 - 1])
    ensures Hi(less, Splice(s, k.dest - n, s[k.c1 - n..k.c1]), tmp, HiLeftTaken(k, n), R)
    ensures k.base < k.c1 - n ==> Splice(s, k.dest - n, s[k.c1 - n..k.c1])[k.c1 - n - 1] == s[k.c1 - n - 1]
  {
    HiLeftNext(less, s, tmp, k, R, n);
    HiWrite(less, s, tmp, k, R, n, HiLeftTaken(k, n));
  }

  lemma HiRight<T(!new)>(less: Less<T>, s: seq<T>, tmp: seq<T>, k: HiCursors, R: seq<T>, n: nat)
    requires StrictWeak(less) && Hi(less, s, tmp, k, R) && n < k.c2 && k.base < k.c1
    requires TailGe(less, tmp[..k.c2], k.c2 - n, s[k.c1 - 1])
    ensures Hi(less, Splice(s, k.dest - n, tmp[k.c2 - n..k.c2]), tmp, HiRightTaken(k, n), R)
  {
    HiRightNext(less, s, tmp, k, R, n);
    HiWrite(less, s, tmp, k, R, n, HiRightTaken(k, n));
  }

  /** Run 1 is used up: the rest of tmp fills the gap. */
  lemma HiEndRight<T(!new)>(less: Less<T>, s: seq<T>, tmp: seq<T>, k: HiCursors, R: seq<T>)
    requires StrictWeak(less) && Hi(less, s, tmp, k, R) && k.c1 == k.base
    ensures Splice(s, k.base, tmp[..k.c2]) == R
  {
    IsMerge(less, s[k.base..k.c1], tmp[..k.c2], R[k.base..k.dest]);
    FinalAll(s, k.base, k.dest, R);
  }

  /** One element of run 2 is left and it is the least. */
  lemma HiEndLeft<T(!new)>(less: Less<T>, s: seq<T>, tmp: seq<T>, k: HiCursors, R: seq<T>)
    requires StrictWeak(less) && Hi(less, s, tmp, k, R) && k.c2 == 1
    ensures Splice(s, k.base + 1, s[k.base..k.c1])[k.base := tmp[0]] == R
  {
    var xs, ys := s[k.base..k.c1], tmp[..1];
    IsMerge(less, xs, ys, R[k.base..k.dest]);
    TakeRight(less, xs, ys, 1);
    assert ys[1..] == [] && ys[..1] == [tmp[0]] && Merge(less, xs, []) == xs;
    assert R[k.base..k.dest] == [tmp[0]] + xs;
    FinalAll(s, k.base, k.dest, R);
    assert Splice(s, k.base + 1, xs)[k.base := tmp[0]] == Splice(s, k.base, [tmp[0]] + xs);
  }
}
