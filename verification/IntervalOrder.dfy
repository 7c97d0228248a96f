/**
  The order inside an interval heap, on the sequences of lower and upper ends; entry 0 of
  both is unused. Everything about upper ends is the mirror image of what is said about
  lower ones: ends exchanged, order reversed.
 */
module IntervalOrder {
  import opened Ordering

  function Parent(i: int): int {
    i / 2
  }

  function Flip<T>(less: Less<T>): Less<T> {
    (x, y) => less(y, x)
  }

  lemma FlipLe<T(!new)>(less: Less<T>)
    requires StrictWeak(less)
    ensures StrictWeak(Flip(less))
    ensures forall x, y {:trigger Le(Flip(less), x, y)} {:trigger Le(less, y, x)} ::
      Le(Flip(less), x, y) == Le(less, y, x)
  {
    var flip := Flip(less);
    forall x, y ensures Le(flip, x, y) == Le(less, y, x) {
    }
    forall x, y ensures Le(flip, x, y) || Le(flip, y, x) {
      assert Le(less, y, x) || Le(less, x, y);
    }
    forall x, y, z | Le(flip, x, y) && Le(flip, y, z) ensures Le(flip, x, z) {
      assert Le(less, z, y) && Le(less, y, x);
    }
  }

  /** m full nodes among last; each interval lies in its parent's, and a half-filled node holds its element twice. */
  ghost predicate Heap<T>(less: Less<T>, lo: seq<T>, hi: seq<T>, m: nat, last: nat) {
    && m <= last <= m + 1 && last < |lo| == |hi|
    && (forall i :: 1 <= i <= last ==> Le(less, lo[i], hi[i]))
    && (forall i :: 2 <= i <= last ==> Le(less, lo[Parent(i)], lo[i]))
    && (forall i :: 2 <= i <= last ==> Le(less, hi[i], hi[Parent(i)]))
    && (last > m ==> lo[last] == hi[last])
  }

  lemma Mirror<T(!new)>(less: Less<T>, lo: seq<T>, hi: seq<T>, m: nat, last: nat)
    requires StrictWeak(less)
    ensures Heap(Flip(less), hi, lo, m, last) == Heap(less, lo, hi, m, last)
  {
    FlipLe(less);
    if Heap(less, lo, hi, m, last) {
      assert Heap(Flip(less), hi, lo, m, last);
    }
    if Heap(Flip(less), hi, lo, m, last) {
      assert Heap(less, lo, hi, m, last);
    }
  }

  // ---- the root holds the extremes ----

  lemma {:induction false} RootFirst<T(!new)>(less: Less<T>, lo: seq<T>, hi: seq<T>, m: nat, last: nat, i: nat)
    requires StrictWeak(less) && Heap(less, lo, hi, m, last) && 1 <= i <= last
    ensures Le(less, lo[1], lo[i]) && Le(less, hi[i], hi[1])
    decreases i
  {
    if i == 1 {
      assert Le(less, lo[1], lo[1]) && Le(less, hi[1], hi[1]);
    } else {
      RootFirst(less, lo, hi, m, last, Parent(i));
    }
  }

  // ---- an element sinks from node cur ----

  /** All in order, but the lower end of cur may exceed those of its children. */
  ghost predicate Sinking<T>(less: Less<T>, lo: seq<T>, hi: seq<T>, m: nat, last: nat, cur: nat) {
    && m <= last <= m + 1 && last < |lo| == |hi| && 1 <= cur <= last
    && (forall i :: 1 <= i <= last ==> Le(less, lo[i], hi[i]))
    && (forall i :: 2 <= i <= last && Parent(i) != cur ==> Le(less, lo[Parent(i)], lo[i]))
    && (forall i :: 2 <= i <= last ==> Le(less, hi[i], hi[Parent(i)]))
    && (forall i :: 2 <= i <= last && Parent(i) == cur && cur > 1 ==> Le(less, lo[Parent(cur)], lo[i]))
    && (last > m && cur != last ==> lo[last] == hi[last])
  }

  /** child is a child of cur with the least lower end. */
  ghost predicate LeastChild<T>(less: Less<T>, lo: seq<T>, last: nat, cur: nat, child: nat) {
    && last < |lo| && 2 <= child <= last && Parent(child) == cur
    && forall i :: 2 <= i <= last && Parent(i) == cur ==> Le(less, lo[child], lo[i])
  }

  /**
    The element at cur changes places with the lower end of the child, and there with the upper
    end if it exceeds it.
   */
  lemma SinkStep<T(!new)>(less: Less<T>, lo: seq<T>, hi: seq<T>, m: nat, last: nat, cur: nat, child: nat, lo': seq<T>,
      hi': seq<T>)
    requires StrictWeak(less) && Sinking(less, lo, hi, m, last, cur) && LeastChild(less, lo, last, cur, child)
    requires less(lo[child], lo[cur])
    requires if less(hi[child], lo[cur])
             then lo' == lo[cur := lo[child]][child := hi[child]] && hi' == hi[child := lo[cur]]
             else lo' == lo[cur := lo[child]][child := lo[cur]] && hi' == hi
    ensures Sinking(less, lo', hi', m, last, child)
  {
    assert !Le(less, lo[cur], lo[child]);
    assert Le(less, lo[child], lo[cur]) && Le(less, lo[cur], hi[cur]) && Le(less, hi[child], hi[cur]);
    assert less(hi[child], lo[cur]) ==> !Le(less, lo[cur], hi[child]);
    assert less(hi[child], lo[cur]) ==> Le(less, hi[child], lo[cur]);
  }

  /** Nothing below cur precedes its element any more. */
  lemma SinkDone<T(!new)>(less: Less<T>, lo: seq<T>, hi: seq<T>, m: nat, last: nat, cur: nat)
    requires StrictWeak(less) && Sinking(less, lo, hi, m, last, cur)
    requires forall i :: 2 <= i <= last && Parent(i) == cur ==> Le(less, lo[cur], lo[i])
    ensures Heap(less, if cur <= m then lo else lo[cur := hi[cur]], hi, m, last)
  {
    if cur > m {
      var lo' := lo[cur := hi[cur]];
      assert Le(less, hi[cur], hi[cur]);
      assert cur >= 2 ==> Le(less, lo[Parent(cur)], lo[cur]) && Le(less, lo[cur], hi[cur]);
    }
  }

  // ---- an element rises from node pos ----

  /**
    The first k lower ends, of which that at pos may precede its parent's, over the first
    f upper ends; f is k, or k - 1 while the last node is new.
   */
  ghost predicate Rising<T>(less: Less<T>, lo: seq<T>, hi: seq<T>, k: nat, f: nat, pos: nat) {
    && f <= k <= f + 1 && k < |lo| == |hi| && 1 <= pos <= k && 2 <= k
    && (forall i :: 1 <= i <= f ==> Le(less, lo[i], hi[i]))
    && (forall i :: 2 <= i <= f ==> Le(less, hi[i], hi[Parent(i)]))
    && (forall i :: 2 <= i <= k && i != pos ==> Le(less, lo[Parent(i)], lo[i]))
    && (forall i :: 2 <= i <= k && Parent(i) == pos && pos > 1 ==> Le(less, lo[Parent(pos)], lo[i]))
    && (1 < pos <= f ==> Le(less, lo[Parent(pos)], hi[pos]))
    && (f < k ==> Le(less, lo[k], hi[Parent(k)]))
  }

  lemma RiseStep<T(!new)>(less: Less<T>, lo: seq<T>, hi: seq<T>, k: nat, f: nat, pos: nat)
    requires StrictWeak(less) && Rising(less, lo, hi, k, f, pos)
    requires pos > 1 && less(lo[pos], lo[Parent(pos)])
    ensures Rising(less, lo[pos := lo[Parent(pos)]][Parent(pos) := lo[pos]], hi, k, f, Parent(pos))
  {
    var par := Parent(pos);
    assert !Le(less, lo[par], lo[pos]);
    assert Le(less, lo[pos], lo[par]) && Le(less, lo[par], hi[par]);
  }

  lemma RiseDone<T(!new)>(less: Less<T>, lo: seq<T>, hi: seq<T>, k: nat, f: nat, pos: nat)
    requires StrictWeak(less) && Rising(less, lo, hi, k, f, pos)
    requires pos > 1 ==> Le(less, lo[Parent(pos)], lo[pos])
    ensures f == k ==> Heap(less, lo, hi, k, k)
    ensures f < k ==> Heap(less, lo, hi[k := lo[k]], k - 1, k)
  {
    assert Le(less, lo[k], lo[k]);
  }

  lemma RiseFromOdd<T(!new)>(less: Less<T>, lo: seq<T>, hi: seq<T>, k: nat, x: T)
    requires StrictWeak(less) && k >= 2 && Heap(less, lo, hi, k - 1, k) && Le(less, x, hi[k])
    ensures Rising(less, lo[k := x], hi, k, k, k)
  {
  }

  lemma RiseFromEven<T(!new)>(less: Less<T>, lo: seq<T>, hi: seq<T>, k: nat, x: T)
    requires StrictWeak(less) && k >= 2 && Heap(less, lo, hi, k - 1, k - 1) && k < |lo| && Le(less, x, hi[Parent(k)])
    ensures Rising(less, lo[k := x], hi, k, k - 1, k)
  {
  }
}
