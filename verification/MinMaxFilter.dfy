/** The two deques of the streaming filter, as sequences of indices into the input. */
module FilterQueue {
  import opened Ordering

  /** Index k of the queue precedes nothing worse than j: it lies at or behind j and is as good. */
  ghost predicate Covered<T>(less: Less<T>, a: seq<T>, q: seq<nat>, j: nat)
    requires j < |a| && forall k :: 0 <= k < |q| ==> q[k] < |a|
  {
    exists k :: 0 <= k < |q| && q[k] >= j && Le(less, a[q[k]], a[j])
  }

  /** Candidates for the least element from lo to i: ascending indices, ascending values, ending in i. */
  ghost predicate Queue<T>(less: Less<T>, a: seq<T>, q: seq<nat>, lo: nat, i: nat) {
    && lo <= i < |a| && q != [] && q[|q| - 1] == i
    && (forall k :: 0 <= k < |q| ==> lo <= q[k] <= i)
    && (forall j, k :: 0 <= j < k < |q| ==> q[j] < q[k] && Le(less, a[q[j]], a[q[k]]))
    && (forall j :: lo <= j <= i ==> Covered(less, a, q, j))
  }

  /** v is a least element among those from lo to i. */
  ghost predicate Least<T>(less: Less<T>, a: seq<T>, lo: nat, i: nat, v: T)
    requires lo <= i < |a|
  {
    && (exists k :: lo <= k <= i && a[k] == v)
    && forall k :: lo <= k <= i ==> Le(less, v, a[k])
  }

  lemma FrontLeast<T(!new)>(less: Less<T>, a: seq<T>, q: seq<nat>, lo: nat, i: nat)
    requires StrictWeak(less) && Queue(less, a, q, lo, i)
    ensures Least(less, a, lo, i, a[q[0]])
  {
    forall j | lo <= j <= i ensures Le(less, a[q[0]], a[j]) {
      assert Covered(less, a, q, j);
      var k :| 0 <= k < |q| && q[k] >= j && Le(less, a[q[k]], a[j]);
      assert k == 0 || Le(less, a[q[0]], a[q[k]]);
    }
  }

  /** The new element goes behind the first m candidates and covers the others. */
  lemma Replaced<T(!new)>(less: Less<T>, a: seq<T>, q: seq<nat>, lo: nat, i: nat, m: nat)
    requires StrictWeak(less) && 0 < i < |a| && Queue(less, a, q, lo, i - 1) && m <= |q|
    requires forall k :: m <= k < |q| ==> Le(less, a[i], a[q[k]])
    requires m > 0 ==> Le(less, a[q[m - 1]], a[i])
    ensures Queue(less, a, q[..m] + [i], lo, i)
  {
    var r := q[..m] + [i];
    assert r[m] == i && Le(less, a[i], a[i]);
    forall k | 0 <= k < m ensures Le(less, a[r[k]], a[i]) {
      assert k == m - 1 || Le(less, a[q[k]], a[q[m - 1]]);
    }
    forall j | lo <= j <= i ensures Covered(less, a, r, j) {
      if j < i {
        CoverKept(less, a, q, lo, i, m, j);
      } else {
        assert r[m] >= j && Le(less, a[r[m]], a[j]);
      }
    }
  }

  lemma CoverKept<T(!new)>(less: Less<T>, a: seq<T>, q: seq<nat>, lo: nat, i: nat, m: nat, j: nat)
    requires StrictWeak(less) && 0 < i < |a| && Queue(less, a, q, lo, i - 1) && m <= |q| && lo <= j < i
    requires forall k :: m <= k < |q| ==> Le(less, a[i], a[q[k]])
    ensures Covered(less, a, q[..m] + [i], j)
  {
    assert Covered(less, a, q, j);
    var r := q[..m] + [i];
    var k :| 0 <= k < |q| && q[k] >= j && Le(less, a[q[k]], a[j]);
    if k < m {
      assert r[k] >= j && Le(less, a[r[k]], a[j]);
    } else {
      assert r[m] >= j && Le(less, a[i], a[q[k]]);
      assert Le(less, a[r[m]], a[j]);
    }
  }

  /** What the front does not cover is covered behind it. */
  lemma CoveredBehind<T(!new)>(less: Less<T>, a: seq<T>, q: seq<nat>, j: nat)
    requires j < |a| && (forall k :: 0 <= k < |q| ==> q[k] < |a|) && Covered(less, a, q, j) && |q| > 0 && q[0] < j
    ensures Covered(less, a, q[1..], j)
  {
    var k :| 0 <= k < |q| && q[k] >= j && Le(less, a[q[k]], a[j]);
    assert q[1..][k - 1] == q[k];
  }

  /** The window moves on by one; only the front may be left behind. */
  lemma Expired<T(!new)>(less: Less<T>, a: seq<T>, q: seq<nat>, lo: nat, i: nat)
    requires Queue(less, a, q, lo, i) && lo < i
    ensures Queue(less, a, if q[0] == lo then q[1..] else q, lo + 1, i)
  {
    if q[0] == lo {
      var r := q[1..];
      assert |q| > 1 && forall k :: 0 <= k < |r| ==> r[k] == q[k + 1];
      forall j | lo + 1 <= j <= i ensures Covered(less, a, q[1..], j) {
        assert Covered(less, a, q, j);
        CoveredBehind(less, a, q, j);
      }
    }
  }

  /** pop_back, and then as long as the new element is better than the back; counts the comparisons. */
  method Retreat<T(!new)>(less: Less<T>, a: seq<T>, q: seq<nat>, lo: nat, i: nat)
      returns (r: seq<nat>, ghost compared: nat)
    requires StrictWeak(less) && 0 < i < |a| && Queue(less, a, q, lo, i - 1) && Le(less, a[i], a[i - 1])
    ensures Queue(less, a, r + [i], lo, i) && |r| < |q| && r == q[..|r|]
    ensures compared <= |q| - |r|
  {
    var m := |q| - 1;
    compared := 0;
    while m > 0 && less(a[i], a[q[m - 1]])
      invariant 0 <= m < |q| && forall k :: m <= k < |q| ==> Le(less, a[i], a[q[k]])
      invariant compared == |q| - 1 - m
    {
      assert Le(less, a[i], a[q[m - 1]]) || Le(less, a[q[m - 1]], a[i]);
      m, compared := m - 1, compared + 1;
    }
    compared := compared + if m > 0 then 1 else 0;
    Replaced(less, a, q, lo, i, m);
    r := q[..m];
  }
}

/** minmax_filter: the minimum and maximum of every window in one pass. */
module MinMaxFilter {
  import opened Ordering
  import opened IntervalOrder
  import opened FilterQueue

  function Start(i: nat, w: nat): nat {
    if i < w then 0 else i - w + 1
  }

  ghost predicate Greatest<T>(less: Less<T>, a: seq<T>, lo: nat, i: nat, v: T)
    requires lo <= i < |a|
  {
    && (exists k :: lo <= k <= i && a[k] == v)
    && forall k :: lo <= k <= i ==> Le(less, a[k], v)
  }

  /** After index i: the queues of both orders, with no index but i in both. */
  ghost predicate Queues<T>(less: Less<T>, a: seq<T>, U: seq<nat>, L: seq<nat>, lo: nat, i: nat) {
    && Queue(Flip(less), a, U, lo, i) && Queue(less, a, L, lo, i)
    && forall j, k :: 0 <= j < |U| && 0 <= k < |L| && U[j] == L[k] ==> U[j] == i
  }

  /** Outputs for the windows that end before i. */
  ghost predicate Filtered<T>(less: Less<T>, a: seq<T>, w: nat, i: nat, mins: seq<T>, maxs: seq<T>)
    requires w >= 1
  {
    && i <= |a| && |mins| == |maxs| == (if i < w then 0 else i - w + 1)
    && (forall j :: 0 <= j < |mins| ==> Least(less, a, j, j + w - 1, mins[j]))
    && (forall j :: 0 <= j < |maxs| ==> Greatest(less, a, j, j + w - 1, maxs[j]))
  }

  lemma FrontGreatest<T(!new)>(less: Less<T>, a: seq<T>, q: seq<nat>, lo: nat, i: nat)
    requires StrictWeak(less) && Queue(Flip(less), a, q, lo, i)
    ensures Greatest(less, a, lo, i, a[q[0]])
  {
    FlipLe(less);
    FrontLeast(Flip(less), a, q, lo, i);
    forall k | lo <= k <= i ensures Le(less, a[k], a[q[0]]) {
      assert Le(Flip(less), a[q[0]], a[k]);
    }
  }

  /** A new element that is not better than the last goes behind it. */
  lemma Pushed<T(!new)>(less: Less<T>, a: seq<T>, q: seq<nat>, lo: nat, i: nat)
    requires StrictWeak(less) && 0 < i < |a| && Queue(less, a, q, lo, i - 1) && Le(less, a[i - 1], a[i])
    ensures Queue(less, a, q + [i], lo, i)
  {
    Replaced(less, a, q, lo, i, |q|);
    assert q[..|q|] == q;
  }

  /** Takes in element i: one side loses its back, which is the last element, and gives way; the other grows. */
  method Advance<T(!new)>(less: Less<T>, a: seq<T>, U: seq<nat>, L: seq<nat>, lo: nat, i: nat)
      returns (U': seq<nat>, L': seq<nat>, ghost compared: nat)
    requires StrictWeak(less) && 0 < i < |a| && Queues(less, a, U, L, lo, i - 1)
    ensures Queues(less, a, U', L', lo, i)
    ensures compared + |U'| + |L'| <= 3 + |U| + |L|
  {
    FlipLe(less);
    if less(a[i - 1], a[i]) {
      assert Le(Flip(less), a[i], a[i - 1]) && Le(less, a[i - 1], a[i]) by {
        assert !Le(less, a[i], a[i - 1]);
      }
      ghost var c;
      U', c := Retreat(Flip(less), a, U, lo, i);
      Pushed(less, a, L, lo, i);
      Apart(U', U, L, i);
      U', L', compared := U' + [i], L + [i], 1 + c;
    } else {
      assert Le(Flip(less), a[i - 1], a[i]) by {
        assert Le(less, a[i], a[i - 1]);
      }
      ghost var c;
      L', c := Retreat(less, a, L, lo, i);
      Pushed(Flip(less), a, U, lo, i);
      Apart(L', L, U, i);
      U', L', compared := U + [i], L' + [i], 1 + c;
    }
  }

  /** The queue that lost i - 1 has nothing old in common with the other. */
  lemma Apart(r: seq<nat>, q: seq<nat>, other: seq<nat>, i: nat)
    requires 0 < i && |r| < |q| && r == q[..|r|] && q[|q| - 1] == i - 1
    requires forall j, k :: 0 <= j < k < |q| ==> q[j] < q[k]
    requires forall k :: 0 <= k < |other| ==> other[k] < i
    requires forall j, k :: 0 <= j < |q| && 0 <= k < |other| && q[j] == other[k] ==> q[j] == i - 1
    ensures forall j, k :: 0 <= j < |r + [i]| && 0 <= k < |other + [i]| && (r + [i])[j] == (other + [i])[k] ==>
      (r + [i])[j] == i
  {
    assert forall j :: 0 <= j < |r| ==> r[j] == q[j] < q[|q| - 1];
  }

  function Trim(q: seq<nat>, lo: nat): seq<nat> {
    if q != [] && q[0] == lo then q[1..] else q
  }

  /** Both fronts never leave the window in the same step. */
  lemma NotBoth<T(!new)>(less: Less<T>, a: seq<T>, U: seq<nat>, L: seq<nat>, lo: nat, i: nat)
    requires Queues(less, a, U, L, lo, i) && lo < i
    ensures !(U[0] == lo && L[0] == lo)
  {
  }

  lemma Trimmed<T(!new)>(less: Less<T>, a: seq<T>, U: seq<nat>, L: seq<nat>, lo: nat, i: nat)
    requires Queues(less, a, U, L, lo, i) && lo < i
    ensures Queues(less, a, Trim(U, lo), Trim(L, lo), lo + 1, i)
  {
    Expired(Flip(less), a, U, lo, i);
    Expired(less, a, L, lo, i);
    TrimApart(U, L, lo, i);
  }

  lemma TrimApart(U: seq<nat>, L: seq<nat>, lo: nat, i: nat)
    requires forall j, k :: 0 <= j < |U| && 0 <= k < |L| && U[j] == L[k] ==> U[j] == i
    ensures var U', L' := Trim(U, lo), Trim(L, lo);
      forall j, k :: 0 <= j < |U'| && 0 <= k < |L'| && U'[j] == L'[k] ==> U'[j] == i
  {
    var U', L' := Trim(U, lo), Trim(L, lo);
    forall j, k | 0 <= j < |U'| && 0 <= k < |L'| && U'[j] == L'[k] ensures U'[j] == i {
      var j', k' := j + |U| - |U'|, k + |L| - |L'|;
      assert U[j'] == U'[j] && L[k'] == L'[k];
    }
  }

  method Expire<T(!new)>(less: Less<T>, a: seq<T>, U: seq<nat>, L: seq<nat>, w: nat, i: nat)
      returns (U': seq<nat>, L': seq<nat>)
    requires w >= 1 && 0 < i && Queues(less, a, U, L, Start(i - 1, w), i)
    ensures Queues(less, a, U', L', Start(i, w), i) && |U'| <= |U| && |L'| <= |L|
  {
    U', L' := U, L;
    ghost var lo := Start(i - 1, w);
    if i >= w {
      assert lo == i - w && Start(i, w) == lo + 1;
      NotBoth(less, a, U, L, lo, i);
      Trimmed(less, a, U, L, lo, i);
    }
    if i == w + U[0] {
      U' := U[1..];
    } else if i == w + L[0] {
      L' := L[1..];
    }
    assert i >= w ==> U' == Trim(U, lo) && L' == Trim(L, lo);
    assert i < w ==> U' == U && L' == L && Start(i, w) == lo;
  }

  method Filter<T(!new)>(less: Less<T>, a: seq<T>, w: nat) returns (mins: seq<T>, maxs: seq<T>, ghost compared: nat)
    requires StrictWeak(less) && |a| >= 1 && w >= 1
    ensures Filtered(less, a, w, |a|, mins, maxs)
    ensures compared <= 3 * (|a| - 1)
  {
    var U, L := [0], [0];
    mins, maxs, compared := [], [], 0;
    FirstQueues(less, a);
    var i := 1;
    while i < |a|
      invariant 1 <= i <= |a| && Queues(less, a, U, L, Start(i - 1, w), i - 1)
      invariant Filtered(less, a, w, i - 1, mins, maxs)
      invariant compared + |U| + |L| <= 3 * (i - 1) + 2
    {
      if i >= w {
        Output(less, a, U, L, w, i, mins, maxs);
        mins, maxs := mins + [a[L[0]]], maxs + [a[U[0]]];
      }
      ghost var c;
      U, L, c := Advance(less, a, U, L, Start(i - 1, w), i);
      U, L := Expire(less, a, U, L, w, i);
      compared := compared + c;
      i := i + 1;
    }
    if i >= w {
      Output(less, a, U, L, w, i, mins, maxs);
      mins, maxs := mins + [a[L[0]]], maxs + [a[U[0]]];
    }
  }

  lemma FirstQueues<T(!new)>(less: Less<T>, a: seq<T>)
    requires StrictWeak(less) && |a| >= 1
    ensures Queues(less, a, [0], [0], 0, 0)
  {
    FlipLe(less);
    var q: seq<nat> := [0];
    assert q[0] == 0 && Le(less, a[q[0]], a[0]) && Le(Flip(less), a[q[0]], a[0]);
    assert Covered(less, a, q, 0) && Covered(Flip(less), a, q, 0);
  }

  lemma Output<T(!new)>(less: Less<T>, a: seq<T>, U: seq<nat>, L: seq<nat>, w: nat, i: nat, mins: seq<T>, maxs: seq<T>)
    requires StrictWeak(less) && 1 <= w <= i <= |a|
    requires Queues(less, a, U, L, Start(i - 1, w), i - 1) && Filtered(less, a, w, i - 1, mins, maxs)
    ensures Filtered(less, a, w, i, mins + [a[L[0]]], maxs + [a[U[0]]])
  {
    FrontLeast(less, a, L, i - w, i - 1);
    FrontGreatest(less, a, U, i - w, i - 1);
  }
}
