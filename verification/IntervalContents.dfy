/** What an interval heap holds, as a multiset; equations between multisets are proved count by count. */
module IntervalContents {

  function One<T(==)>(e: T, x: T): nat {
    if e == x then 1 else 0
  }

  /** b is a with one more e. */
  ghost predicate Added<T(!new)>(a: multiset<T>, e: T, b: multiset<T>) {
    forall x :: b[x] == a[x] + One(e, x)
  }

  lemma AddedSum<T(!new)>(a: multiset<T>, e: T, b: multiset<T>)
    requires Added(a, e, b)
    ensures b == a + multiset{e}
  {
    forall x ensures b[x] == (a + multiset{e})[x] {
      assert b[x] == a[x] + One(e, x);
    }
  }

  // ---- one side ----

  /** How often x is among the first m ends. */
  ghost function Count<T>(s: seq<T>, m: nat, x: T): nat
    requires m < |s|
  {
    if m == 0 then 0 else Count(s, m - 1, x) + One(s[m], x)
  }

  lemma {:induction false} CountOutside<T>(s: seq<T>, m: nat, i: nat, v: T, x: T)
    requires m < i < |s|
    ensures Count(s[i := v], m, x) == Count(s, m, x)
    decreases m
  {
    if m > 0 {
      CountOutside(s, m - 1, i, v, x);
    }
  }

  lemma {:induction false} CountSet<T>(s: seq<T>, m: nat, i: nat, v: T, x: T)
    requires 1 <= i <= m < |s|
    ensures Count(s[i := v], m, x) + One(s[i], x) == Count(s, m, x) + One(v, x)
    decreases m
  {
    if i < m {
      CountSet(s, m - 1, i, v, x);
    } else {
      CountOutside(s, m - 1, i, v, x);
    }
  }

  lemma CountSwap<T>(s: seq<T>, m: nat, i: nat, j: nat, x: T)
    requires 1 <= i <= m < |s| && 1 <= j <= m && i != j
    ensures Count(s[i := s[j]][j := s[i]], m, x) == Count(s, m, x)
  {
    CountSet(s, m, i, s[j], x);
    CountSet(s[i := s[j]], m, j, s[i], x);
  }

  lemma {:induction false} CountPositive<T>(s: seq<T>, m: nat, x: T)
    requires m < |s|
    ensures Count(s, m, x) > 0 <==> exists i :: 1 <= i <= m && s[i] == x
    decreases m
  {
    if m > 0 {
      CountPositive(s, m - 1, x);
    }
  }

  // ---- both sides ----

  ghost function Bag<T>(s: seq<T>, m: nat): multiset<T>
    requires m < |s|
  {
    if m == 0 then multiset{} else Bag(s, m - 1) + multiset{s[m]}
  }

  lemma {:induction false} BagCount<T>(s: seq<T>, m: nat, x: T)
    requires m < |s|
    ensures Bag(s, m)[x] == Count(s, m, x)
  {
    if m > 0 {
      BagCount(s, m - 1, x);
    }
  }

  /** The lower ends of the m full nodes and the upper ends of all. */
  ghost function Held<T>(lo: seq<T>, hi: seq<T>, m: nat, last: nat): multiset<T>
    requires m <= last <= m + 1 && last < |lo| == |hi|
  {
    Bag(lo, m) + Bag(hi, last)
  }

  lemma HeldCount<T>(lo: seq<T>, hi: seq<T>, m: nat, last: nat, x: T)
    requires m <= last <= m + 1 && last < |lo| == |hi|
    ensures Held(lo, hi, m, last)[x] == Count(lo, m, x) + Count(hi, last, x)
  {
    BagCount(lo, m, x);
    BagCount(hi, last, x);
  }

  lemma HeldMirror<T(!new)>(lo: seq<T>, hi: seq<T>, m: nat, last: nat)
    requires m <= last <= m + 1 && last < |lo| == |hi| && (last > m ==> lo[last] == hi[last])
    ensures Held(lo, hi, m, last) == Held(hi, lo, m, last)
  {
    forall x ensures Held(lo, hi, m, last)[x] == Held(hi, lo, m, last)[x] {
      HeldCount(lo, hi, m, last, x);
      HeldCount(hi, lo, m, last, x);
    }
  }

  lemma HeldMember<T>(lo: seq<T>, hi: seq<T>, m: nat, last: nat, x: T)
    requires m <= last <= m + 1 && last < |lo| == |hi|
    ensures x in Held(lo, hi, m, last) <==>
      (exists i :: 1 <= i <= m && lo[i] == x) || (exists i :: 1 <= i <= last && hi[i] == x)
  {
    HeldCount(lo, hi, m, last, x);
    CountPositive(lo, m, x);
    CountPositive(hi, last, x);
  }

  /** The lower end of a half-filled last node does not count. */
  lemma GapOutside<T(!new)>(lo: seq<T>, hi: seq<T>, m: nat, last: nat, i: nat, v: T)
    requires m <= last <= m + 1 && last < |lo| == |hi| && m < i < |lo|
    ensures Held(lo[i := v], hi, m, last) == Held(lo, hi, m, last)
  {
    forall x ensures Held(lo[i := v], hi, m, last)[x] == Held(lo, hi, m, last)[x] {
      HeldCount(lo, hi, m, last, x);
      HeldCount(lo[i := v], hi, m, last, x);
      CountOutside(lo, m, i, v, x);
    }
  }

  /** A lower and an upper end change places. */
  lemma HeldCross<T(!new)>(lo: seq<T>, hi: seq<T>, m: nat, last: nat, i: nat, j: nat)
    requires m <= last <= m + 1 && last < |lo| == |hi| && 1 <= i <= m && 1 <= j <= last
    ensures Held(lo[i := hi[j]], hi[j := lo[i]], m, last) == Held(lo, hi, m, last)
  {
    var lo', hi' := lo[i := hi[j]], hi[j := lo[i]];
    forall x ensures Held(lo', hi', m, last)[x] == Held(lo, hi, m, last)[x] {
      HeldCount(lo, hi, m, last, x);
      HeldCount(lo', hi', m, last, x);
      CountSet(lo, m, i, hi[j], x);
      CountSet(hi, last, j, lo[i], x);
    }
  }

  lemma HeldSwap<T(!new)>(lo: seq<T>, hi: seq<T>, m: nat, last: nat, i: nat, j: nat)
    requires m <= last <= m + 1 && last < |lo| == |hi| && 1 <= i < j <= m
    ensures Held(lo[i := lo[j]][j := lo[i]], hi, m, last) == Held(lo, hi, m, last)
  {
    var lo' := lo[i := lo[j]][j := lo[i]];
    forall x ensures Held(lo', hi, m, last)[x] == Held(lo, hi, m, last)[x] {
      HeldCount(lo, hi, m, last, x);
      HeldCount(lo', hi, m, last, x);
      CountSwap(lo, m, i, j, x);
    }
  }

  /** The moves of one step down, into a full node or the last, half-filled one. */
  lemma HeldSink<T(!new)>(lo: seq<T>, hi: seq<T>, m: nat, last: nat, cur: nat, child: nat, crossed: bool)
    requires m <= last <= m + 1 && last < |lo| == |hi| && 1 <= cur < child <= last
    requires child > m ==> lo[child] == hi[child] && crossed
    ensures var lo', hi' := lo[cur := lo[child]][child := if crossed then hi[child] else lo[cur]],
      if crossed then hi[child := lo[cur]] else hi;
      Held(lo', hi', m, last) == Held(lo, hi, m, last)
  {
    if child > m {
      HeldCross(lo, hi, m, last, cur, child);
      GapOutside(lo[cur := lo[child]], hi[child := lo[cur]], m, last, child, hi[child]);
    } else {
      var swapped := lo[cur := lo[child]][child := lo[cur]];
      HeldSwap(lo, hi, m, last, cur, child);
      if crossed {
        HeldCross(swapped, hi, m, last, child, child);
        assert swapped[child := hi[child]] == lo[cur := lo[child]][child := hi[child]];
      }
    }
  }
}
