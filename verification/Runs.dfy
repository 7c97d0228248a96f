/**
  How runs are made: a natural run is found and, when it descends, reversed; a short
  one is extended by binary insertion.
 */
module Runs {
  import opened Ordering
  import opened Copying
  import opened Galloping
  import opened Rearranging

  // ---- natural runs ----

  ghost predicate StrictlyDescending<T>(less: Less<T>, s: seq<T>) {
    forall i, j {:trigger s[i], s[j]} :: 0 <= i < j < |s| ==> less(s[j], s[i])
  }

  lemma ExtendAscending<T(!new)>(less: Less<T>, s: seq<T>, x: T)
    requires StrictWeak(less) && Sorted(less, s) && s != [] && Le(less, s[|s| - 1], x)
    ensures Sorted(less, s + [x])
  {
    forall i | 0 <= i < |s| - 1 ensures Le(less, s[i], x) {
      assert Le(less, s[i], s[|s| - 1]);
    }
  }

  lemma ExtendDescending<T(!new)>(less: Less<T>, s: seq<T>, x: T)
    requires StrictWeak(less) && StrictlyDescending(less, s) && s != [] && less(x, s[|s| - 1])
    ensures StrictlyDescending(less, s + [x])
  {
    var last := s[|s| - 1];
    forall i | 0 <= i < |s| - 1 ensures less(x, s[i]) {
      assert !Le(less, s[i], last) && Le(less, x, last);
      if Le(less, s[i], x) {
        assert false;
      }
    }
  }

  function Reversed<T>(s: seq<T>): (r: seq<T>)
    ensures |r| == |s|
  {
    if s == [] then [] else Reversed(s[1..]) + [s[0]]
  }

  lemma {:induction false} ReversedAt<T>(s: seq<T>, i: nat)
    requires i < |s|
    ensures Reversed(s)[i] == s[|s| - 1 - i]
  {
    if i < |s| - 1 {
      ReversedAt(s[1..], i);
    }
  }

  /** A strictly descending run has no two equivalent elements... */
  lemma AloneInClass<T(!new)>(less: Less<T>, s: seq<T>, x: T)
    requires StrictWeak(less) && StrictlyDescending(less, s) && s != [] && Equiv(less, s[0], x)
    ensures Class(less, s[1..], x) == []
  {
    var t := s[1..];
    forall i | 0 <= i < |t| ensures !Equiv(less, t[i], x) {
      assert t[i] == s[i + 1] && !Le(less, s[0], t[i]) && Le(less, s[0], x);
      if Le(less, x, t[i]) {
        assert false;
      }
    }
    ClassEmpty(less, t, x);
  }

  lemma EmptyCommutes<T>(a: seq<T>, b: seq<T>)
    requires a == [] || b == []
    ensures a + b == b + a
  {
  }

  /** ... so reversing it is stable. */
  lemma {:induction false} ReversedClass<T(!new)>(less: Less<T>, s: seq<T>, x: T)
    requires StrictWeak(less) && StrictlyDescending(less, s)
    ensures Class(less, Reversed(s), x) == Class(less, s, x)
  {
    if s != [] {
      var t := s[1..];
      assert s == [s[0]] + t;
      ReversedClass(less, t, x);
      ClassOne(less, s[0], x);
      if Equiv(less, s[0], x) {
        AloneInClass(less, s, x);
      }
      EmptyCommutes(Class(less, t, x), Class(less, [s[0]], x));
      ClassConcat(less, Reversed(t), [s[0]], x);
      ClassConcat(less, [s[0]], t, x);
    }
  }

  lemma ReversedRun<T(!new)>(less: Less<T>, s: seq<T>)
    requires StrictWeak(less) && StrictlyDescending(less, s)
    ensures Sorted(less, Reversed(s)) && Stable(less, s, Reversed(s))
  {
    forall i, j | 0 <= i < j < |s| ensures Le(less, Reversed(s)[i], Reversed(s)[j]) {
      ReversedAt(s, i);
      ReversedAt(s, j);
      assert !Le(less, s[|s| - 1 - j], s[|s| - 1 - i]);
    }
    forall x ensures Class(less, s, x) == Class(less, Reversed(s), x) {
      ReversedClass(less, s, x);
    }
  }

  /** std::reverse on lo..hi. */
  method Reverse<T>(a: array<T>, lo: nat, hi: nat)
    requires lo <= hi <= a.Length
    modifies a
    ensures a[..] == Splice(old(a[..]), lo, Reversed(old(a[..])[lo..hi]))
  {
    assert a[..][lo..hi] == a[lo..hi];
    CopyIn(a, lo, Reversed(a[lo..hi]));
  }

  /** The n elements at lo are a natural run: ascending, or strictly descending. */
  ghost predicate NaturalRun<T>(less: Less<T>, s: seq<T>, lo: int, n: int)
    requires 0 <= lo <= lo + n <= |s|
  {
    Sorted(less, s[lo..lo + n]) || StrictlyDescending(less, s[lo..lo + n])
  }

  /** The length of the longest natural run at lo, and which way it goes. */
  method CountRun<T(!new)>(a: array<T>, lo: nat, hi: nat, less: Less<T>) returns (n: nat, descending: bool)
    requires StrictWeak(less) && lo < hi <= a.Length
    ensures 1 <= n <= hi - lo
    ensures if descending then StrictlyDescending(less, a[..][lo..lo + n]) else Sorted(less, a[..][lo..lo + n])
    ensures lo + n < hi ==> !NaturalRun(less, a[..], lo, n + 1)
  {
    ghost var s := a[..];
    var runHi := lo + 1;
    if runHi == hi {
      return 1, false;
    }
    CompareSign(less, a[runHi], a[lo]);
    descending := Compare(less, a[runHi], a[lo]) < 0;
    runHi := runHi + 1;
    assert s[lo..runHi] == [s[lo], s[lo + 1]];
    while runHi < hi && (Compare(less, a[runHi], a[runHi - 1]) < 0) == descending
      invariant lo + 2 <= runHi <= hi && descending == less(s[lo + 1], s[lo])
      invariant if descending then StrictlyDescending(less, s[lo..runHi]) else Sorted(less, s[lo..runHi])
    {
      CompareSign(less, a[runHi], a[runHi - 1]);
      assert s[lo..runHi + 1] == s[lo..runHi] + [s[runHi]];
      if descending {
        ExtendDescending(less, s[lo..runHi], s[runHi]);
      } else {
        ExtendAscending(less, s[lo..runHi], s[runHi]);
      }
      runHi := runHi + 1;
    }
    if runHi < hi {
      CompareSign(less, a[runHi], a[runHi - 1]);
      NotExtended(less, s, lo, runHi);
    }
    n := runHi - lo;
  }

  /** Finds the longest natural run at lo and makes it ascending. */
  method CountRunAndMakeAscending<T(!new)>(a: array<T>, lo: nat, hi: nat, less: Less<T>) returns (n: nat)
    requires StrictWeak(less) && lo < hi <= a.Length
    modifies a
    ensures 1 <= n <= hi - lo && Sorted(less, a[..][lo..lo + n])
    ensures Rearranged(less, old(a[..]), a[..], lo, lo + n)
    ensures NaturalRun(less, old(a[..]), lo, n) && (lo + n < hi ==> !NaturalRun(less, old(a[..]), lo, n + 1))
  {
    var descending;
    n, descending := CountRun(a, lo, hi, less);
    RearrangedReflexive(less, a[..], lo, lo + n);
    if descending {
      ghost var run := a[..][lo..lo + n];
      ReversedRun(less, run);
      SpliceRearranged(less, a[..], lo, Reversed(run));
      Reverse(a, lo, lo + n);
    }
  }

  /** A run is over where its last step goes the other way than its first. */
  lemma NotExtended<T(!new)>(less: Less<T>, s: seq<T>, lo: nat, hi: nat)
    requires lo + 2 <= hi < |s|
    requires less(s[lo + 1], s[lo]) != less(s[hi], s[hi - 1])
    ensures !NaturalRun(less, s, lo, hi - lo + 1)
  {
    var t := s[lo..lo + (hi - lo + 1)];
    assert t[0] == s[lo] && t[1] == s[lo + 1] && t[|t| - 2] == s[hi - 1] && t[|t| - 1] == s[hi];
    assert less(t[1], t[0]) != less(t[|t| - 1], t[|t| - 2]);
    assert Le(less, t[0], t[1]) != less(t[1], t[0]) && Le(less, t[|t| - 2], t[|t| - 1]) != less(t[|t| - 1], t[|t| - 2]);
  }

  // ---- binary insertion ----

  /** Inserting p between the elements not above it and those above it. */
  lemma Inserted<T(!new)>(less: Less<T>, xs: seq<T>, ys: seq<T>, p: T)
    requires StrictWeak(less) && Sorted(less, xs + ys) && RightCut(less, p, xs + ys, |xs|)
    ensures Sorted(less, xs + [p] + ys) && Stable(less, xs + ys + [p], xs + [p] + ys)
  {
    var s, t := xs + ys, xs + [p] + ys;
    forall i, j | 0 <= i < j < |t| ensures Le(less, t[i], t[j]) {
      if i == |xs| {
        assert less(p, s[j - 1]) && Le(less, p, s[j - 1]);
      } else if j == |xs| {
        assert Le(less, s[i], p);
      } else {
        assert Le(less, s[if i < |xs| then i else i - 1], s[if j < |xs| then j else j - 1]);
      }
    }
    forall x ensures Class(less, s + [p], x) == Class(less, t, x) {
      InsertedClass(less, xs, ys, p, x);
    }
  }

  lemma InsertedClass<T(!new)>(less: Less<T>, xs: seq<T>, ys: seq<T>, p: T, x: T)
    requires StrictWeak(less) && RightCut(less, p, xs + ys, |xs|)
    ensures Class(less, xs + ys + [p], x) == Class(less, xs + [p] + ys, x)
  {
    ClassConcat(less, xs + ys, [p], x);
    ClassConcat(less, xs, ys, x);
    ClassConcat(less, xs + [p], ys, x);
    ClassConcat(less, xs, [p], x);
    ClassOne(less, p, x);
    if Equiv(less, p, x) {
      forall i | 0 <= i < |ys| ensures !Equiv(less, ys[i], x) {
        assert ys[i] == (xs + ys)[|xs| + i];
        assert !Le(less, ys[i], p) && Le(less, x, p);
        if Le(less, ys[i], x) {
          assert false;
        }
      }
      ClassEmpty(less, ys, x);
    }
  }

  /** Where the binary search puts pivot: after everything not above it. */
  method InsertionPoint<T(!new)>(a: array<T>, lo: nat, hi: nat, pivot: T, less: Less<T>) returns (left: nat)
    requires StrictWeak(less) && lo <= hi <= a.Length && Sorted(less, a[..][lo..hi])
    ensures lo <= left <= hi && RightCut(less, pivot, a[..][lo..hi], left - lo)
  {
    ghost var s := a[..][lo..hi];
    left := lo;
    var right := hi;
    while left < right
      invariant lo <= left <= right <= hi
      invariant forall i :: 0 <= i < left - lo ==> Le(less, s[i], pivot)
      invariant forall i :: right - lo <= i < |s| ==> less(pivot, s[i])
    {
      var mid := left + (right - left) / 2;
      CompareSign(less, pivot, a[mid]);
      Probe(less, pivot, s, mid - lo);
      if Compare(less, pivot, a[mid]) < 0 {
        right := mid;
      } else {
        left := mid + 1;
      }
    }
  }

  lemma ShiftStep<T>(s: seq<T>, p: nat, start: nat)
    requires 0 < p <= start < |s|
    ensures Splice(s, p + 1, s[p..start])[p := s[p - 1]] == Splice(s, p, s[p - 1..start])
  {
  }

  /** Move the element at start down to left, shifting those between up by one. */
  method Insert<T>(a: array<T>, left: nat, start: nat)
    requires left <= start < a.Length
    modifies a
    ensures a[..] == Splice(old(a[..]), left, [old(a[start])] + old(a[..])[left..start])
  {
    ghost var s := a[..];
    var pivot := a[start];
    var p := start;
    assert Splice(s, p + 1, s[p..start]) == s;
    while p > left
      invariant left <= p <= start && a[..] == Splice(s, p + 1, s[p..start])
    {
      ghost var shifted := a[..];
      a[p] := a[p - 1];
      assert a[..] == shifted[p := s[p - 1]];
      ShiftStep(s, p, start);
      p := p - 1;
    }
    ghost var shifted := a[..];
    a[left] := pivot;
    assert a[..] == shifted[left := s[start]];
    Dropped(s, left, start);
  }

  lemma Dropped<T>(s: seq<T>, left: nat, start: nat)
    requires left <= start < |s|
    ensures Splice(s, left + 1, s[left..start])[left := s[start]] == Splice(s, left, [s[start]] + s[left..start])
  {
  }

  lemma InsertedParts<T>(s: seq<T>, lo: nat, left: nat, start: nat)
    requires lo <= left <= start < |s|
    ensures s[lo..start] == s[lo..left] + s[left..start]
    ensures s[lo..start + 1] == s[lo..left] + s[left..start] + [s[start]]
    ensures Splice(s, left, [s[start]] + s[left..start]) == Splice(s, lo, s[lo..left] + [s[start]] + s[left..start])
  {
    var t, t' := Splice(s, left, [s[start]] + s[left..start]), Splice(s, lo, s[lo..left] + [s[start]] + s[left..start]);
    forall i | 0 <= i < |s| ensures t[i] == t'[i] {
    }
  }

  /** One insertion extends the sorted prefix by one element. */
  lemma InsertedRun<T(!new)>(less: Less<T>, s: seq<T>, lo: nat, left: nat, start: nat)
    requires StrictWeak(less) && lo <= left <= start < |s| && Sorted(less, s[lo..start])
    requires RightCut(less, s[start], s[lo..start], left - lo)
    ensures var s' := Splice(s, left, [s[start]] + s[left..start]);
      Sorted(less, s'[lo..start + 1]) && Rearranged(less, s, s', lo, start + 1)
  {
    var xs, ys, p := s[lo..left], s[left..start], s[start];
    InsertedParts(s, lo, left, start);
    Inserted(less, xs, ys, p);
    SpliceRearranged(less, s, lo, xs + [p] + ys);
  }

  /** Sorts lo..hi, whose part lo..start is sorted already. */
  method BinarySort<T(!new)>(a: array<T>, lo: nat, hi: nat, start: nat, less: Less<T>)
    requires StrictWeak(less) && lo <= start <= hi <= a.Length && Sorted(less, a[..][lo..start])
    modifies a
    ensures Sorted(less, a[..][lo..hi]) && Rearranged(less, old(a[..]), a[..], lo, hi)
  {
    var next := if start == lo then start + 1 else start;
    RearrangedReflexive(less, a[..], lo, hi);
    while next < hi
      invariant lo <= next && (next <= hi || next == lo + 1)
      invariant Sorted(less, a[..][lo..if next <= hi then next else hi])
      invariant Rearranged(less, old(a[..]), a[..], lo, hi)
    {
      ghost var s := a[..];
      var left := InsertionPoint(a, lo, next, a[next], less);
      InsertedRun(less, s, lo, left, next);
      Insert(a, left, next);
      RearrangedWiden(less, s, a[..], lo, next + 1, lo, hi);
      RearrangedTransitive(less, old(a[..]), s, a[..], lo, hi);
      next := next + 1;
    }
  }

  /** Extends a sorted run to the whole of lo..hi. */
  method ExtendRun<T(!new)>(a: array<T>, lo: nat, hi: nat, start: nat, less: Less<T>, ghost s: seq<T>)
    requires StrictWeak(less) && lo <= start <= hi <= a.Length && Sorted(less, a[..][lo..start])
    requires Rearranged(less, s, a[..], lo, start)
    modifies a
    ensures Sorted(less, a[..][lo..hi]) && Rearranged(less, s, a[..], lo, hi)
  {
    ghost var t := a[..];
    BinarySort(a, lo, hi, start, less);
    RearrangedWiden(less, s, t, lo, start, lo, hi);
    RearrangedTransitive(less, s, t, a[..], lo, hi);
  }

  /** A run at lo of at least min(minRun, hi - lo) elements. */
  method MakeRun<T(!new)>(a: array<T>, lo: nat, hi: nat, minRun: nat, less: Less<T>) returns (n: nat)
    requires StrictWeak(less) && lo < hi <= a.Length
    modifies a
    ensures 1 <= n <= hi - lo && (n >= minRun || n == hi - lo)
    ensures Sorted(less, a[..][lo..lo + n]) && Rearranged(less, old(a[..]), a[..], lo, lo + n)
  {
    n := CountRunAndMakeAscending(a, lo, hi, less);
    if n < minRun {
      var force := if hi - lo < minRun then hi - lo else minRun;
      ExtendRun(a, lo, lo + force, lo + n, less, old(a[..]));
      n := force;
    }
  }
}
