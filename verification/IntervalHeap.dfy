/** Removing, replacing and inserting at one end of an interval heap. */
module IntervalEnds {
  import opened Ordering
  import opened IntervalOrder
  import opened IntervalContents
  import opened IntervalSifting

  // ---- removing ----

  /** The lower ends once the last element is taken from its node, which is then half-filled or gone. */
  ghost function Cut<T>(lo: seq<T>, hi: seq<T>, m: nat, last: nat): seq<T>
    requires 1 <= last < |lo| == |hi|
  {
    if last > m then lo else lo[last := hi[last]]
  }

  /** The full nodes and all nodes with one element less. */
  function FullLess(m: nat, last: nat): int {
    if last > m then m else m - 1
  }

  function LastLess(m: nat, last: nat): int {
    if last > m then m else last
  }

  lemma CutSinks<T(!new)>(less: Less<T>, lo: seq<T>, hi: seq<T>, m: nat, last: nat)
    requires StrictWeak(less) && Heap(less, lo, hi, m, last) && last >= 2
    ensures Sinking(less, Cut(lo, hi, m, last)[1 := lo[last]], hi, FullLess(m, last), LastLess(m, last), 1)
  {
    RootFirst(less, lo, hi, m, last, last);
    assert Le(less, lo[last], hi[last]) && Le(less, hi[last], hi[1]);
    assert last == m ==> Le(less, hi[last], hi[last]) && Le(less, lo[Parent(last)], lo[last]);
  }

  lemma CutHeld<T(!new)>(lo: seq<T>, hi: seq<T>, m: nat, last: nat)
    requires m <= last <= m + 1 && 2 <= last < |lo| == |hi| && (last > m ==> lo[last] == hi[last])
    ensures Added(Held(Cut(lo, hi, m, last)[1 := lo[last]], hi, FullLess(m, last), LastLess(m, last)), lo[1],
      Held(lo, hi, m, last))
  {
    var m', last', cut := FullLess(m, last), LastLess(m, last), Cut(lo, hi, m, last);
    forall x ensures Held(lo, hi, m, last)[x] == Held(cut[1 := lo[last]], hi, m', last')[x] + One(lo[1], x) {
      HeldCount(lo, hi, m, last, x);
      HeldCount(cut[1 := lo[last]], hi, m', last', x);
      CountSet(cut, m', 1, lo[last], x);
      if last == m {
        CountOutside(lo, m', last, hi[last], x);
      }
    }
  }

  /** With one element left, or none, that is all. */
  lemma CutSmall<T(!new)>(less: Less<T>, lo: seq<T>, hi: seq<T>, m: nat, last: nat)
    requires StrictWeak(less) && last == 1 && Heap(less, lo, hi, m, last)
    ensures Heap(less, Cut(lo, hi, m, last), hi, FullLess(m, last), LastLess(m, last))
    ensures Added(Held(Cut(lo, hi, m, last), hi, FullLess(m, last), LastLess(m, last)), lo[1], Held(lo, hi, m, last))
  {
    assert Le(less, hi[1], hi[1]);
    var m', last', cut := FullLess(m, last), LastLess(m, last), Cut(lo, hi, m, last);
    forall x ensures Held(lo, hi, m, last)[x] == Held(cut, hi, m', last')[x] + One(lo[1], x) {
      HeldCount(lo, hi, m, last, x);
      HeldCount(cut, hi, m', last', x);
    }
  }

  /** pop_min, and pop_max with the ends exchanged. */
  method PopEnd<T(==, !new)>(less: Less<T>, near: array<T>, far: array<T>, m: nat, last: nat)
    requires StrictWeak(less) && near != far && last >= 1
    requires near.Length == far.Length && Heap(less, near[..], far[..], m, last)
    modifies near, far
    ensures Heap(less, near[..], far[..], FullLess(m, last), LastLess(m, last))
    ensures Added(Held(near[..], far[..], FullLess(m, last), LastLess(m, last)), old(near[1]),
      old(Held(near[..], far[..], m, last)))
  {
    var elem := near[last];
    ghost var lo, hi := near[..], far[..];
    if last == m {
      near[last] := far[last];
    }
    assert near[..] == Cut(lo, hi, m, last);
    if last == 1 {
      CutSmall(less, lo, hi, m, last);
      return;
    }
    CutSinks(less, lo, hi, m, last);
    CutHeld(lo, hi, m, last);
    var m', last' := FullLess(m, last), LastLess(m, last);
    PopRest(less, near, far, m', last', elem, Held(Cut(lo, hi, m, last)[1 := elem], hi, m', last'));
  }

  /** The last element never sinks into a node that is only half-filled. */
  method PopRest<T(==, !new)>(less: Less<T>, near: array<T>, far: array<T>, m: nat, last: nat, elem: T,
      ghost held: multiset<T>)
    requires StrictWeak(less) && near != far && m >= 1 && near.Length == far.Length
    requires SinksTo(less, near[..], far[..], m, last, 1, elem, held) && (last > m ==> Le(less, elem, far[last]))
    modifies near, far
    ensures Heap(less, near[..], far[..], m, last) && Held(near[..], far[..], m, last) == held
  {
    var cur, e := Sink(less, near, far, m, last, elem, held);
    near[cur] := e;
  }

  // ---- replacing ----

  /** The value takes the place at the root, or that of the far end, which takes its place. */
  lemma ReplaceSinks<T(!new)>(less: Less<T>, lo: seq<T>, hi: seq<T>, m: nat, last: nat, value: T)
    requires StrictWeak(less) && Heap(less, lo, hi, m, last) && m >= 1
    ensures if less(hi[1], value) then Sinking(less, lo[1 := hi[1]], hi[1 := value], m, last, 1)
            else Sinking(less, lo[1 := value], hi, m, last, 1)
  {
    assert Le(less, hi[1], value) || Le(less, value, hi[1]);
  }

  /** b is a with the value in the place of e. */
  ghost predicate Exchanged<T(!new)>(a: multiset<T>, e: T, value: T, b: multiset<T>) {
    forall x :: b[x] + One(e, x) == a[x] + One(value, x)
  }

  lemma ExchangedSum<T(!new)>(a: multiset<T>, e: T, value: T, b: multiset<T>)
    requires Exchanged(a, e, value, b)
    ensures b + multiset{e} == a + multiset{value}
  {
    forall x ensures (b + multiset{e})[x] == (a + multiset{value})[x] {
      assert b[x] + One(e, x) == a[x] + One(value, x);
    }
  }

  lemma ReplaceHeld<T(!new)>(lo: seq<T>, hi: seq<T>, m: nat, last: nat, value: T)
    requires 1 <= m <= last <= m + 1 && last < |lo| == |hi|
    ensures Exchanged(Held(lo, hi, m, last), lo[1], value, Held(lo[1 := hi[1]], hi[1 := value], m, last))
    ensures Exchanged(Held(lo, hi, m, last), lo[1], value, Held(lo[1 := value], hi, m, last))
  {
    forall x
      ensures Held(lo[1 := hi[1]], hi[1 := value], m, last)[x] + One(lo[1], x) == Held(lo, hi, m, last)[x] +
        One(value, x)
      ensures Held(lo[1 := value], hi, m, last)[x] + One(lo[1], x) == Held(lo, hi, m, last)[x] + One(value, x)
    {
      HeldCount(lo, hi, m, last, x);
      HeldCount(lo[1 := value], hi, m, last, x);
      HeldCount(lo[1 := hi[1]], hi[1 := value], m, last, x);
      CountSet(lo, m, 1, value, x);
      CountSet(lo, m, 1, hi[1], x);
      CountSet(hi, last, 1, value, x);
    }
  }

  lemma SingleReplaced<T(!new)>(lo: seq<T>, hi: seq<T>, lo': seq<T>, hi': seq<T>, value: T)
    requires 1 < |lo| == |hi| == |lo'| == |hi'| && lo[1] == hi[1] && hi'[1] == value
    ensures Exchanged(Held(lo, hi, 0, 1), lo[1], value, Held(lo', hi', 0, 1))
  {
    forall x ensures Held(lo', hi', 0, 1)[x] + One(lo[1], x) == Held(lo, hi, 0, 1)[x] + One(value, x) {
      HeldCount(lo, hi, 0, 1, x);
      HeldCount(lo', hi', 0, 1, x);
    }
  }

  /** replace_min, and replace_max with the ends exchanged. */
  method ReplaceEnd<T(==, !new)>(less: Less<T>, near: array<T>, far: array<T>, m: nat, last: nat, value: T)
    requires StrictWeak(less) && near != far && last >= 1
    requires near.Length == far.Length && Heap(less, near[..], far[..], m, last)
    modifies near, far
    ensures Heap(less, near[..], far[..], m, last)
    ensures Exchanged(old(Held(near[..], far[..], m, last)), old(near[1]), value, Held(near[..], far[..], m, last))
  {
    ghost var lo, hi := near[..], far[..];
    if m == 0 {
      near[1] := value;
      far[1] := value;
      assert Le(less, value, value);
      SingleReplaced(lo, hi, near[..], far[..], value);
      return;
    }
    var elem := value;
    ReplaceSinks(less, lo, hi, m, last, value);
    ReplaceHeld(lo, hi, m, last, value);
    if less(far[1], elem) {
      elem := far[1];
      far[1] := value;
    }
    ghost var held := Held(near[..][1 := elem], far[..], m, last);
    var cur, e := Sink(less, near, far, m, last, elem, held);
    GapFilled(near[..], far[..], m, last, cur, e, held);
    near[cur] := if cur <= m then e else far[cur];
  }

  /** A gap at the half-filled last node does not count. */
  lemma GapFilled<T(!new)>(lo: seq<T>, hi: seq<T>, m: nat, last: nat, cur: nat, e: T, held: multiset<T>)
    requires 1 <= cur <= last < |lo| == |hi| && m <= last <= m + 1 && Held(lo[cur := e], hi, m, last) == held
    ensures Held(lo[cur := if cur <= m then e else hi[cur]], hi, m, last) == held
  {
    if cur > m {
      GapOutside(lo, hi, m, last, cur, e);
      GapOutside(lo, hi, m, last, cur, hi[cur]);
    }
  }

  // ---- inserting ----

  lemma CountLast<T>(lo: seq<T>, lo': seq<T>, k: nat, value: T, x: T)
    requires 1 <= k < |lo| == |lo'| && Count(lo', k, x) == Count(lo[k := value], k, x)
    ensures Count(lo', k - 1, x) + One(lo'[k], x) == Count(lo', k, x) == Count(lo, k - 1, x) + One(value, x)
  {
    CountOutside(lo, k - 1, k, value, x);
  }

  lemma InsertHeldOdd<T(!new)>(lo: seq<T>, hi: seq<T>, lo': seq<T>, k: nat, m: nat, value: T)
    requires 1 <= k < |lo| == |hi| == |lo'| && m == k - 1 && forall x :: Count(lo', k, x) == Count(lo[k := value], k, x)
    ensures Added(Held(lo, hi, m, k), value, Held(lo', hi, k, k))
  {
    forall x ensures Held(lo', hi, k, k)[x] == Held(lo, hi, m, k)[x] + One(value, x) {
      HeldCount(lo, hi, m, k, x);
      HeldCount(lo', hi, k, k, x);
      CountLast(lo, lo', k, value, x);
    }
  }

  lemma InsertCountEven<T>(lo: seq<T>, hi: seq<T>, lo': seq<T>, hi': seq<T>, k: nat, value: T, x: T)
    requires 1 <= k < |lo| == |hi| == |lo'| && Count(lo', k, x) == Count(lo[k := value], k, x)
    requires hi' == hi[k := lo'[k]]
    ensures Count(lo', k - 1, x) + Count(hi', k, x) == Count(lo, k - 1, x) + Count(hi, k - 1, x) + One(value, x)
  {
    CountLast(lo, lo', k, value, x);
    CountOutside(hi, k - 1, k, lo'[k], x);
  }

  lemma InsertHeldEven<T(!new)>(lo: seq<T>, hi: seq<T>, lo': seq<T>, hi': seq<T>, k: nat, m: nat, value: T)
    requires 1 <= k < |lo| == |hi| == |lo'| && m == k - 1 && forall x :: Count(lo', k, x) == Count(lo[k := value], k, x)
    requires hi' == hi[k := lo'[k]]
    ensures Added(Held(lo, hi, m, m), value, Held(lo', hi', m, k))
  {
    forall x ensures Held(lo', hi', m, k)[x] == Held(lo, hi, m, m)[x] + One(value, x) {
      assert Count(lo', k, x) == Count(lo[k := value], k, x);
      InsertCountEven(lo, hi, lo', hi', k, value, x);
      HeldCount(lo, hi, m, m, x);
      HeldCount(lo', hi', m, k, x);
    }
  }

  /** The branch of insert on which value goes to the near side of the half-filled node k. */
  method InsertOdd<T(!new)>(less: Less<T>, near: array<T>, far: array<T>, k: nat, ghost m: nat, value: T)
    requires StrictWeak(less) && near != far && near.Length == far.Length && k >= 2 && m == k - 1
    requires Heap(less, near[..], far[..], m, k) && Le(less, value, far[k])
    modifies near
    ensures Heap(less, near[..], far[..], k, k)
    ensures Added(old(Held(near[..], far[..], m, k)), value, Held(near[..], far[..], k, k))
  {
    ghost var lo := near[..];
    RiseFromOdd(less, lo, far[..], k, value);
    Rise(less, near, far, k, k, value);
    InsertHeldOdd(lo, far[..], near[..], k, m, value);
  }

  /** The branch on which it goes to the near side of the new node k. */
  method InsertEven<T(!new)>(less: Less<T>, near: array<T>, far: array<T>, k: nat, ghost m: nat, value: T)
    requires StrictWeak(less) && near != far && near.Length == far.Length && 2 <= k < near.Length && m == k - 1
    requires Heap(less, near[..], far[..], m, m) && Le(less, value, far[k / 2])
    modifies near, far
    ensures Heap(less, near[..], far[..], m, k)
    ensures Added(old(Held(near[..], far[..], m, m)), value, Held(near[..], far[..], m, k))
  {
    ghost var lo, hi := near[..], far[..];
    RiseFromEven(less, lo, hi, k, value);
    Rise(less, near, far, k, k - 1, value);
    far[k] := near[k];
    assert far[..] == hi[k := near[k]];
    InsertHeldEven(lo, hi, near[..], far[..], k, m, value);
  }

  // ---- the other end ----

  lemma MirrorBoth<T(!new)>(less: Less<T>, lo: seq<T>, hi: seq<T>, m: nat, last: nat)
    requires StrictWeak(less)
    ensures StrictWeak(Flip(less)) && Heap(Flip(less), hi, lo, m, last) == Heap(less, lo, hi, m, last)
    ensures Heap(less, lo, hi, m, last) ==> Held(hi, lo, m, last) == Held(lo, hi, m, last)
  {
    FlipLe(less);
    Mirror(less, lo, hi, m, last);
    if Heap(less, lo, hi, m, last) {
      HeldMirror(lo, hi, m, last);
    }
  }

  method PopFar<T(==, !new)>(less: Less<T>, first: array<T>, second: array<T>, m: nat, last: nat)
    requires StrictWeak(less) && first != second && last >= 1
    requires first.Length == second.Length && Heap(less, first[..], second[..], m, last)
    modifies first, second
    ensures Heap(less, first[..], second[..], FullLess(m, last), LastLess(m, last))
    ensures Added(Held(first[..], second[..], FullLess(m, last), LastLess(m, last)), old(second[1]),
      old(Held(first[..], second[..], m, last)))
  {
    MirrorBoth(less, first[..], second[..], m, last);
    PopEnd(Flip(less), second, first, m, last);
    MirrorBoth(less, first[..], second[..], FullLess(m, last), LastLess(m, last));
  }

  method ReplaceFar<T(==, !new)>(less: Less<T>, first: array<T>, second: array<T>, m: nat, last: nat, value: T)
    requires StrictWeak(less) && first != second && last >= 1
    requires first.Length == second.Length && Heap(less, first[..], second[..], m, last)
    modifies first, second
    ensures Heap(less, first[..], second[..], m, last)
    ensures Exchanged(old(Held(first[..], second[..], m, last)), old(second[1]), value,
      Held(first[..], second[..], m, last))
  {
    MirrorBoth(less, first[..], second[..], m, last);
    ReplaceEnd(Flip(less), second, first, m, last, value);
    MirrorBoth(less, first[..], second[..], m, last);
  }

  lemma RootHeld<T>(lo: seq<T>, hi: seq<T>, m: nat, last: nat)
    requires m <= last <= m + 1 && 1 <= last < |lo| == |hi| && (last > m ==> lo[last] == hi[last])
    ensures lo[1] in Held(lo, hi, m, last) && hi[1] in Held(lo, hi, m, last)
  {
    HeldMember(lo, hi, m, last, lo[1]);
    HeldMember(lo, hi, m, last, hi[1]);
  }

  // ---- insert ----

  lemma RootInserted<T(!new)>(lo: seq<T>, hi: seq<T>, lo': seq<T>, hi': seq<T>, m: nat, last: nat, m': nat, last': nat,
      value: T)
    requires 2 <= |lo| == |hi| == |lo'| == |hi'| && m == 0 && last' == 1 && last <= 1
    requires last == 0 ==> m' == 0 && hi'[1] == value
    requires last > 0 ==> m' == 1 && lo[1] == hi[1]
    requires last > 0 ==> (lo'[1] == value && hi'[1] == hi[1]) || (lo'[1] == lo[1] && hi'[1] == value)
    ensures Added(Held(lo, hi, m, last), value, Held(lo', hi', m', last'))
  {
    forall x ensures Held(lo', hi', m', last')[x] == Held(lo, hi, m, last)[x] + One(value, x) {
      HeldCount(lo, hi, m, last, x);
      HeldCount(lo', hi', m', last', x);
    }
  }

  /** The full nodes and all nodes with one element more. */
  function FullMore(m: nat, last: nat): nat {
    if last > m then m + 1 else m
  }

  function LastMore(m: nat, last: nat): nat {
    if last > m then last else last + 1
  }

  method InsertRoot<T(!new)>(less: Less<T>, first: array<T>, second: array<T>, m: nat, last: nat, value: T)
    requires StrictWeak(less) && first != second && m == 0
    requires first.Length == second.Length >= 2 && Heap(less, first[..], second[..], m, last)
    modifies first, second
    ensures Heap(less, first[..], second[..], FullMore(m, last), LastMore(m, last))
    ensures Added(old(Held(first[..], second[..], m, last)), value,
      Held(first[..], second[..], FullMore(m, last), LastMore(m, last)))
  {
    assert Le(less, value, value);
    ghost var lo, hi := first[..], second[..];
    if last == 0 {
      first[1] := value;
      second[1] := value;
    } else if less(value, first[1]) {
      assert !Le(less, first[1], value);
      first[1] := value;
    } else {
      second[1] := value;
    }
    RootInserted(lo, hi, first[..], second[..], m, last, FullMore(m, last), LastMore(m, last), value);
  }

  method InsertNear<T(!new)>(less: Less<T>, near: array<T>, far: array<T>, m: nat, last: nat, k: nat, value: T)
    requires StrictWeak(less) && near != far && m >= 1 && k == LastMore(m, last)
    requires near.Length == far.Length > k && Heap(less, near[..], far[..], m, last)
    requires Le(less, value, far[if last > m then k else k / 2])
    modifies near, far
    ensures Heap(less, near[..], far[..], FullMore(m, last), k)
    ensures Added(old(Held(near[..], far[..], m, last)), value, Held(near[..], far[..], FullMore(m, last), k))
  {
    ghost var m' := k - 1;
    assert m' == m;
    if last > m {
      assert last == k && FullMore(m, last) == k;
      InsertOdd(less, near, far, k, m', value);
    } else {
      assert last == m' && FullMore(m, last) == m';
      InsertEven(less, near, far, k, m', value);
    }
  }

  method InsertBelow<T(!new)>(less: Less<T>, first: array<T>, second: array<T>, m: nat, last: nat, value: T)
    requires StrictWeak(less) && first != second && m >= 1
    requires first.Length == second.Length > LastMore(m, last) && Heap(less, first[..], second[..], m, last)
    modifies first, second
    ensures Heap(less, first[..], second[..], FullMore(m, last), LastMore(m, last))
    ensures Added(old(Held(first[..], second[..], m, last)), value,
      Held(first[..], second[..], FullMore(m, last), LastMore(m, last)))
  {
    var k := LastMore(m, last);
    var i := if last > m then k else k / 2;
    if less(value, first[i]) {
      Belongs(less, first[i], second[i], value);
      InsertNear(less, first, second, m, last, k, value);
    } else {
      FlipLe(less);
      assert Le(less, first[i], value) == Le(Flip(less), value, first[i]);
      MirrorBoth(less, first[..], second[..], m, last);
      InsertNear(Flip(less), second, first, m, last, k, value);
      MirrorBoth(less, first[..], second[..], FullMore(m, last), k);
    }
  }

  /** A value below a lower end is below the upper one. */
  lemma Belongs<T(!new)>(less: Less<T>, lo: T, hi: T, value: T)
    requires StrictWeak(less) && Le(less, lo, hi) && less(value, lo)
    ensures Le(less, value, hi)
  {
    assert !Le(less, lo, value);
  }
}

/** interval_heap: a double-ended priority queue of bounded capacity. */
module IntervalHeaps {
  import opened Ordering
  import opened IntervalOrder
  import opened IntervalContents
  import opened IntervalEnds

  /** Node i of the container is the pair first[i], second[i]. */
  class IntervalHeap<T(==, !new, 0)> {
    const compare: Less<T>
    var first: array<T>
    var second: array<T>
    var capacity: nat
    var size: nat
    ghost var full: nat
    ghost var last: nat

    ghost predicate Valid()
      reads this, first, second
    {
      && StrictWeak(compare) && first != second && first.Length == second.Length == (capacity + 1) / 2 + 1
      && size == full + last <= capacity && Heap(compare, first[..], second[..], full, last)
    }

    ghost function Contents(): multiset<T>
      requires Valid()
      reads this, first, second
    {
      Held(first[..], second[..], full, last)
    }

    constructor (capacity: nat, compare: Less<T>)
      requires StrictWeak(compare)
      ensures Valid() && fresh(first) && fresh(second)
      ensures this.capacity == capacity && this.compare == compare && size == 0 && Contents() == multiset{}
    {
      this.compare, this.capacity, size, full, last := compare, capacity, 0, 0, 0;
      first := new T[(capacity + 1) / 2 + 1];
      second := new T[(capacity + 1) / 2 + 1];
    }

    method Clear()
      requires Valid()
      modifies this
      ensures Valid() && Contents() == multiset{} && size == 0
      ensures first == old(first) && second == old(second) && capacity == old(capacity)
    {
      SetSize(0, 0, 0);
    }

    method SetSize(n: nat, ghost m: nat, ghost l: nat)
      modifies this`size, this`full, this`last
      ensures size == n && full == m && last == l && first[..] == old(first[..]) && second[..] == old(second[..])
    {
      size, full, last := n, m, l;
    }

    // ---- the extremes ----

    lemma Bounded(x: T)
      requires Valid() && size > 0 && x in Contents()
      ensures Le(compare, first[1], x) && Le(compare, x, second[1])
    {
      var lo, hi := first[..], second[..];
      HeldMember(lo, hi, full, last, x);
      var i :| 1 <= i <= last && (lo[i] == x || hi[i] == x);
      RootFirst(compare, lo, hi, full, last, i);
    }

    method GetMin() returns (x: T)
      requires Valid() && size > 0
      ensures x == first[1] && x in Contents() && forall y :: y in Contents() ==> Le(compare, x, y)
    {
      x := first[1];
      RootHeld(first[..], second[..], full, last);
      forall y | y in Contents() ensures Le(compare, x, y) {
        Bounded(y);
      }
    }

    method GetMax() returns (x: T)
      requires Valid() && size > 0
      ensures x == second[1] && x in Contents() && forall y :: y in Contents() ==> Le(compare, y, x)
    {
      x := second[1];
      RootHeld(first[..], second[..], full, last);
      forall y | y in Contents() ensures Le(compare, y, x) {
        Bounded(y);
      }
    }

    /** The full nodes and all nodes. */
    method Nodes() returns (m: nat, l: nat)
      requires size == full + last && full <= last <= full + 1
      ensures m == full && l == last
    {
      m, l := size / 2, (size + 1) / 2;
    }

    // ---- changing the heap ----

    method PopMin()
      requires Valid() && size > 0
      modifies this`size, this`full, this`last, first, second
      ensures Valid() && Contents() + multiset{old(first[1])} == old(Contents()) && size == old(size) - 1
    {
      var m, l := Nodes();
      PopEnd(compare, first, second, m, l);
      SetSize(size - 1, FullLess(m, l), LastLess(m, l));
      AddedSum(Contents(), old(first[1]), old(Contents()));
    }

    method PopMax()
      requires Valid() && size > 0
      modifies this`size, this`full, this`last, first, second
      ensures Valid() && Contents() + multiset{old(second[1])} == old(Contents()) && size == old(size) - 1
    {
      var m, l := Nodes();
      PopFar(compare, first, second, m, l);
      SetSize(size - 1, FullLess(m, l), LastLess(m, l));
      AddedSum(Contents(), old(second[1]), old(Contents()));
    }

    method ReplaceMin(value: T)
      requires Valid() && size > 0
      modifies first, second
      ensures Valid() && Contents() + multiset{old(first[1])} == old(Contents()) + multiset{value}
    {
      var m, l := Nodes();
      ReplaceEnd(compare, first, second, m, l, value);
      ExchangedSum(old(Contents()), old(first[1]), value, Contents());
    }

    method ReplaceMax(value: T)
      requires Valid() && size > 0
      modifies first, second
      ensures Valid() && Contents() + multiset{old(second[1])} == old(Contents()) + multiset{value}
    {
      var m, l := Nodes();
      ReplaceFar(compare, first, second, m, l, value);
      ExchangedSum(old(Contents()), old(second[1]), value, Contents());
    }

    /** Insertion with room for another element. */
    method InsertMore(value: T)
      requires Valid() && size < capacity
      modifies this`size, this`full, this`last, first, second
      ensures Valid() && size == old(size) + 1 && Added(old(Contents()), value, Contents())
    {
      var m, l := Nodes();
      if size < 2 {
        InsertRoot(compare, first, second, m, l, value);
      } else {
        InsertBelow(compare, first, second, m, l, value);
      }
      SetSize(size + 1, FullMore(m, l), LastMore(m, l));
    }

    /** A full heap ignores the value. */
    method Insert(value: T)
      requires Valid()
      modifies this`size, this`full, this`last, first, second
      ensures Valid()
      ensures if old(size) == capacity then size == old(size) && Contents() == old(Contents())
              else size == old(size) + 1 && Contents() == old(Contents()) + multiset{value}
    {
      if size != capacity {
        InsertMore(value);
        AddedSum(old(Contents()), value, Contents());
      }
    }
  }
}
