/**
  The loops of the interval heap, written once for both ends: near is the array of the
  ends that move, far the other one. The upper ends move with the order reversed.
 */
module IntervalSifting {
  import opened Ordering
  import opened IntervalOrder
  import opened IntervalContents

  method Child<T(!new)>(less: Less<T>, near: array<T>, last: nat, cur: nat) returns (child: nat)
    requires StrictWeak(less) && 1 <= cur && 2 * cur <= last < near.Length
    ensures LeastChild(less, near[..], last, cur, child) && 2 * cur <= child <= 2 * cur + 1
  {
    child := 2 * cur;
    assert Le(less, near[child], near[child]);
    if child < last {
      assert Le(less, near[child + 1], near[child + 1]);
      assert Le(less, near[child], near[child + 1]) || Le(less, near[child + 1], near[child]);
      if less(near[child + 1], near[child]) {
        child := child + 1;
      }
    }
  }

  /** elem is on its way down, at present at cur, and held is what the heap holds with it. */
  ghost predicate SinksTo<T>(less: Less<T>, near: seq<T>, far: seq<T>, m: nat, last: nat, cur: nat, elem: T,
      held: multiset<T>) {
    && 1 <= cur <= last < |near| == |far| && m <= last <= m + 1
    && Sinking(less, near[cur := elem], far, m, last, cur) && Held(near[cur := elem], far, m, last) == held
  }

  /** Sinks elem from the root, moving smaller ends up; the caller fills the gap that remains at cur. */
  method Sink<T(!new)>(less: Less<T>, near: array<T>, far: array<T>, m: nat, last: nat, value: T,
      ghost held: multiset<T>) returns (cur: nat, elem: T)
    requires StrictWeak(less) && near != far && m >= 1 && near.Length == far.Length
    requires SinksTo(less, near[..], far[..], m, last, 1, value, held)
    modifies near, far
    ensures near.Length == far.Length && SinksTo(less, near[..], far[..], m, last, cur, elem, held)
    ensures Heap(less, if cur <= m then near[..][cur := elem] else near[..][cur := far[cur]], far[..], m, last)
    ensures last > m && Le(less, value, old(far[last])) ==> cur <= m
  {
    cur, elem := 1, value;
    while 2 * cur <= last
      invariant SinksTo(less, near[..], far[..], m, last, cur, elem, held)
      invariant last > m && Le(less, value, old(far[last])) ==> cur <= m && Le(less, elem, far[last])
      decreases last - cur
    {
      var child := Child(less, near, last, cur);
      ChildOfGap(less, near[..], last, cur, child, elem);
      if !less(near[child], elem) {
        SinkEnds(less, near[..][cur := elem], far[..], m, last, cur, child);
        return;
      }
      cur, elem := Lower(less, near, far, m, last, cur, child, elem, held);
    }
    SinkDone(less, near[..][cur := elem], far[..], m, last, cur);
    assert near[..][cur := elem][cur := far[cur]] == near[..][cur := far[cur]];
  }

  lemma ChildOfGap<T>(less: Less<T>, near: seq<T>, last: nat, cur: nat, child: nat, elem: T)
    requires LeastChild(less, near, last, cur, child) && 1 <= cur < child
    ensures LeastChild(less, near[cur := elem], last, cur, child)
  {
  }

  lemma SinkEnds<T(!new)>(less: Less<T>, lo: seq<T>, hi: seq<T>, m: nat, last: nat, cur: nat, child: nat)
    requires StrictWeak(less) && Sinking(less, lo, hi, m, last, cur) && LeastChild(less, lo, last, cur, child)
    requires Le(less, lo[cur], lo[child])
    ensures cur <= m && Heap(less, lo, hi, m, last)
  {
    SinkDone(less, lo, hi, m, last, cur);
  }

  lemma LowerTurn<T(!new)>(less: Less<T>, near: seq<T>, far: seq<T>, m: nat, last: nat, cur: nat, child: nat, elem: T,
      held: multiset<T>)
    requires StrictWeak(less) && SinksTo(less, near, far, m, last, cur, elem, held)
    requires cur < child && LeastChild(less, near[cur := elem], last, cur, child) && less(near[child], elem)
    ensures var crossed := less(far[child], elem);
      SinksTo(less, near[cur := near[child]], if crossed then far[child := elem] else far, m, last, child,
        if crossed then far[child] else elem, held)
  {
    var lo, crossed := near[cur := elem], less(far[child], elem);
    var lo', hi' := lo[cur := lo[child]][child := if crossed then far[child] else elem],
      if crossed then far[child := elem] else far;
    SinkStep(less, lo, far, m, last, cur, child, lo', hi');
    if child > m {
      assert lo[child] == far[child];
    }
    HeldSink(lo, far, m, last, cur, child, crossed);
    assert near[cur := near[child]][child := if crossed then far[child] else elem] == lo';
  }

  /** One turn of the loop. */
  method Lower<T(!new)>(less: Less<T>, near: array<T>, far: array<T>, m: nat, last: nat, cur: nat, child: nat, elem: T,
      ghost held: multiset<T>) returns (cur': nat, elem': T)
    requires StrictWeak(less) && near != far && near.Length == far.Length
    requires SinksTo(less, near[..], far[..], m, last, cur, elem, held)
    requires cur < child && LeastChild(less, near[..][cur := elem], last, cur, child) && less(near[child], elem)
    modifies near, far
    ensures cur' == child && SinksTo(less, near[..], far[..], m, last, child, elem', held)
    ensures last > m && Le(less, elem, old(far[last])) ==> Le(less, elem', far[last]) && child <= m
  {
    LowerTurn(less, near[..], far[..], m, last, cur, child, elem, held);
    assert child == last && last > m ==> near[child] == far[child];
    cur', elem' := child, elem;
    near[cur] := near[child];
    if less(far[child], elem) {
      assert Le(less, far[child], elem);
      elem' := far[child];
      far[child] := elem;
    }
  }

  /** value is on its way up, at present at pos, and the near ends with it are those of start. */
  ghost predicate RisesTo<T(!new)>(less: Less<T>, near: seq<T>, far: seq<T>, k: nat, f: nat, pos: nat, value: T,
      start: seq<T>) {
    && 1 <= pos <= k < |near| == |start|
    && Rising(less, near[pos := value], far, k, f, pos) && forall x ::
      Count(near[pos := value], k, x) == Count(start, k, x)
  }

  lemma RiseTurn<T(!new)>(less: Less<T>, near: seq<T>, far: seq<T>, k: nat, f: nat, pos: nat, value: T, start: seq<T>)
    requires StrictWeak(less) && RisesTo(less, near, far, k, f, pos, value, start)
    requires pos > 1 && less(value, near[pos / 2])
    ensures RisesTo(less, near[pos := near[pos / 2]], far, k, f, pos / 2, value, start)
  {
    var lo := near[pos := value];
    RiseStep(less, lo, far, k, f, pos);
    assert near[pos := near[pos / 2]][pos / 2 := value] == lo[pos := lo[pos / 2]][pos / 2 := value];
    forall x ensures Count(near[pos := near[pos / 2]][pos / 2 := value], k, x) == Count(start, k, x) {
      CountSwap(lo, k, pos, pos / 2, x);
    }
  }

  /** Raises value from node k, of which only the near end is free. */
  method Rise<T(!new)>(less: Less<T>, near: array<T>, far: array<T>, k: nat, ghost f: nat, value: T)
    requires StrictWeak(less) && near != far && k < near.Length == far.Length
    requires Rising(less, near[..][k := value], far[..], k, f, k)
    modifies near
    ensures f == k ==> Heap(less, near[..], far[..], k, k)
    ensures f < k ==> Heap(less, near[..], far[..][k := near[k]], k - 1, k)
    ensures forall x :: Count(near[..], k, x) == Count(old(near[..])[k := value], k, x)
  {
    var pos: nat := k;
    ghost var start := near[..][k := value];
    while pos > 1 && less(value, near[pos / 2])
      invariant RisesTo(less, near[..], far[..], k, f, pos, value, start)
    {
      RiseTurn(less, near[..], far[..], k, f, pos, value, start);
      near[pos] := near[pos / 2];
      pos := pos / 2;
    }
    near[pos] := value;
    RiseDone(less, near[..], far[..], k, f, pos);
  }
}
