/** The pointers of a skiplist, level by level. */
module SkiplistLinks {
  import opened SkiplistNodes

  const MAX_LEVEL := 32

  type Pointers<K, V> = array<Node?<K, V>>

  /** The pointers before position q: those of the list itself, or of the node there. */
  ghost function Table<K, V>(head: Pointers<K, V>, ns: seq<Node<K, V>>, q: nat): Pointers<K, V>
    requires q <= |ns|
  {
    if q == 0 then head else ns[q - 1].next
  }

  ghost function Arrays<K, V>(head: Pointers<K, V>, ns: seq<Node<K, V>>): set<Pointers<K, V>> {
    {head} + set i | 0 <= i < |ns| :: ns[i].next
  }

  lemma TableIn<K, V>(head: Pointers<K, V>, ns: seq<Node<K, V>>, q: nat)
    requires q <= |ns|
    ensures Table(head, ns, q) in Arrays(head, ns)
  {
  }

  ghost predicate Apart<K, V>(head: Pointers<K, V>, ns: seq<Node<K, V>>) {
    && head.Length == MAX_LEVEL
    && (forall i :: 0 <= i < |ns| ==> ns[i].next != head && 1 <= ns[i].next.Length <= MAX_LEVEL)
    && (forall i, j :: 0 <= i < j < |ns| ==> ns[i].next != ns[j].next)
  }

  /** Every pointer of level l points to the next node that is taller than l. */
  ghost predicate LevelOk<K, V>(head: Pointers<K, V>, ns: seq<Node<K, V>>, l: nat)
    reads Arrays(head, ns)
  {
    forall q {:trigger Table(head, ns, q)} :: 0 <= q <= |ns| && l < Table(head, ns, q).Length ==>
      Table(head, ns, q)[l] == First(ns[q..], l)
  }

  ghost predicate Linked<K, V>(head: Pointers<K, V>, ns: seq<Node<K, V>>)
    reads Arrays(head, ns)
  {
    Apart(head, ns) && forall l :: 0 <= l < MAX_LEVEL ==> LevelOk(head, ns, l)
  }

  /** a is the last pointer table before p that reaches level l. */
  ghost predicate Precedes<K, V>(head: Pointers<K, V>, ns: seq<Node<K, V>>, p: nat, l: nat, q: nat)
    requires p <= |ns|
  {
    q <= p && l < Table(head, ns, q).Length && First(ns[q..p], l) == null
  }

  lemma TallBetween<K, V>(ns: seq<Node<K, V>>, p: nat, l: nat, q: nat, r: nat)
    requires q < r <= p <= |ns| && l < ns[r - 1].next.Length
    ensures First(ns[q..p], l) != null
  {
    FirstNull(ns[q..p], l);
    assert ns[q..p][r - 1 - q] == ns[r - 1];
  }

  // ---- inserting ----

  lemma InsertedTables<K, V>(head: Pointers<K, V>, ns: seq<Node<K, V>>, p: nat, x: Node<K, V>, q: nat)
    requires p <= |ns| && q <= |ns| + 1
    ensures Table(head, Inserted(ns, p, x), q) ==
      if q <= p then Table(head, ns, q) else if q == p + 1 then x.next else Table(head, ns, q - 1)
    ensures q > p ==> Inserted(ns, p, x)[q..] == ns[q - 1..]
  {
  }

  /** A level that the new node does not reach. */
  lemma LevelAbove<K, V>(head: Pointers<K, V>, ns: seq<Node<K, V>>, p: nat, x: Node<K, V>, l: nat)
    requires p <= |ns| && LevelOk(head, ns, l) && x.next.Length <= l
    ensures LevelOk(head, Inserted(ns, p, x), l)
  {
    var ns' := Inserted(ns, p, x);
    forall q | 0 <= q <= |ns'| && l < Table(head, ns', q).Length ensures Table(head, ns', q)[l] == First(ns'[q..], l) {
      InsertedTables(head, ns, p, x, q);
      if q <= p {
        FirstInserted(ns, p, x, q, l);
      }
    }
  }

  /** Wires the new node into level l behind the table that precedes it. */
  method SpliceIn<K, V>(head: Pointers<K, V>, ghost ns: seq<Node<K, V>>, ghost p: nat, x: Node<K, V>, l: nat,
      a: Pointers<K, V>, ghost q: nat)
    requires p <= |ns| && Apart(head, ns) && LevelOk(head, ns, l) && l < x.next.Length && x.next !in Arrays(head, ns)
    requires Precedes(head, ns, p, l, q) && a == Table(head, ns, q)
    modifies x.next, a
    ensures LevelOk(head, Inserted(ns, p, x), l)
    ensures forall k :: 0 <= k < a.Length && k != l ==> a[k] == old(a[k])
    ensures forall k :: 0 <= k < x.next.Length && k != l ==> x.next[k] == old(x.next[k])
  {
    ghost var ns' := Inserted(ns, p, x);
    TableIn(head, ns, q);
    assert a[l] == First(ns[q..], l);
    FirstInserted(ns, p, x, q, l);
    SkipsTo(ns, p, q, l);
    x.next[l] := a[l];
    a[l] := x;
    forall r | 0 <= r <= |ns'| && l < Table(head, ns', r).Length ensures Table(head, ns', r)[l] == First(ns'[r..], l) {
      InsertedTables(head, ns, p, x, r);
      if r <= p {
        FirstInserted(ns, p, x, r, l);
        OtherTable(head, ns, p, l, q, r);
      } else if r > p + 1 {
        TableIn(head, ns, r - 1);
        OtherTable(head, ns, p, l, q, r - 1);
      }
    }
  }

  /** Nothing tall between: the pointer is that from p. */
  lemma SkipsTo<K, V>(ns: seq<Node<K, V>>, p: nat, q: nat, l: nat)
    requires q <= p <= |ns| && First(ns[q..p], l) == null
    ensures First(ns[q..], l) == First(ns[p..], l)
  {
    assert ns[q..] == ns[q..p] + ns[p..];
    FirstConcat(ns[q..p], ns[p..], l);
  }

  /** Other tables are other arrays, and before p they do not precede at this level. */
  lemma OtherTable<K, V>(head: Pointers<K, V>, ns: seq<Node<K, V>>, p: nat, l: nat, q: nat, r: nat)
    requires p <= |ns| && r <= |ns| && Apart(head, ns) && Precedes(head, ns, p, l, q) && l < Table(head, ns, r).Length
    ensures r != q ==> Table(head, ns, r) != Table(head, ns, q)
    ensures r != q && r <= p ==> First(ns[r..p], l) != null
  {
    if r < q {
      TallBetween(ns, p, l, r, q);
    } else if q < r <= p {
      TallBetween(ns, p, l, q, r);
    }
  }

  // ---- erasing ----

  lemma RemovedTables<K, V>(head: Pointers<K, V>, ns: seq<Node<K, V>>, p: nat, q: nat)
    requires p < |ns| && q < |ns|
    ensures Table(head, Removed(ns, p), q) == if q <= p then Table(head, ns, q) else Table(head, ns, q + 1)
    ensures q > p ==> Removed(ns, p)[q..] == ns[q + 1..]
  {
  }

  /** A level that the node does not reach. */
  lemma LevelBeyond<K, V>(head: Pointers<K, V>, ns: seq<Node<K, V>>, p: nat, l: nat)
    requires p < |ns| && LevelOk(head, ns, l) && ns[p].next.Length <= l
    ensures LevelOk(head, Removed(ns, p), l)
  {
    var ns' := Removed(ns, p);
    forall q | 0 <= q <= |ns'| && l < Table(head, ns', q).Length ensures Table(head, ns', q)[l] == First(ns'[q..], l) {
      RemovedTables(head, ns, p, q);
      if q <= p {
        FirstRemoved(ns, p, q, l);
      }
    }
  }

  /** Wires the table that precedes the node around it at level l. */
  method SpliceOut<K, V>(head: Pointers<K, V>, ghost ns: seq<Node<K, V>>, ghost p: nat, x: Node<K, V>, l: nat,
      a: Pointers<K, V>, ghost q: nat)
    requires p < |ns| && x == ns[p] && Apart(head, ns) && LevelOk(head, ns, l) && l < x.next.Length
    requires Precedes(head, ns, p, l, q) && a == Table(head, ns, q)
    modifies a
    ensures LevelOk(head, Removed(ns, p), l)
    ensures forall k :: 0 <= k < a.Length && k != l ==> a[k] == old(a[k])
  {
    ghost var ns' := Removed(ns, p);
    assert x.next == Table(head, ns, p + 1);
    assert x.next[l] == First(ns[p + 1..], l);
    a[l] := x.next[l];
    forall r | 0 <= r <= |ns'| && l < Table(head, ns', r).Length ensures Table(head, ns', r)[l] == First(ns'[r..], l) {
      RemovedTables(head, ns, p, r);
      if r <= p {
        FirstRemoved(ns, p, r, l);
        OtherTable(head, ns, p, l, q, r);
      } else {
        OtherTable(head, ns, p, l, q, r + 1);
      }
    }
  }

  // ---- all levels ----

  /** Levels below i are those of one list, the others those of another. */
  ghost predicate Between<K, V>(head: Pointers<K, V>, lower: seq<Node<K, V>>, upper: seq<Node<K, V>>, i: nat)
    reads Arrays(head, lower), Arrays(head, upper)
  {
    && (forall l :: 0 <= l < i ==> LevelOk(head, lower, l))
    && (forall l :: i <= l < MAX_LEVEL ==> LevelOk(head, upper, l))
  }

  lemma InsertedArrays<K, V>(head: Pointers<K, V>, ns: seq<Node<K, V>>, p: nat, x: Node<K, V>)
    requires p <= |ns|
    ensures Arrays(head, Inserted(ns, p, x)) == Arrays(head, ns) + {x.next}
  {
    var ns' := Inserted(ns, p, x);
    forall a | a in Arrays(head, ns) ensures a in Arrays(head, ns') {
      if a != head {
        var i :| 0 <= i < |ns| && ns[i].next == a;
        assert ns'[if i < p then i else i + 1] == ns[i];
      }
    }
    assert ns'[p] == x;
    forall a | a in Arrays(head, ns') ensures a in Arrays(head, ns) + {x.next} {
      if a != head {
        var i :| 0 <= i < |ns'| && ns'[i].next == a;
        assert i < p ==> ns'[i] == ns[i];
        assert i > p ==> ns'[i] == ns[i - 1];
      }
    }
  }

  lemma RemovedArrays<K, V>(head: Pointers<K, V>, ns: seq<Node<K, V>>, p: nat)
    requires p < |ns|
    ensures Arrays(head, Removed(ns, p)) <= Arrays(head, ns)
  {
    var ns' := Removed(ns, p);
    forall a | a in Arrays(head, ns') ensures a in Arrays(head, ns) {
      if a != head {
        var i :| 0 <= i < |ns'| && ns'[i].next == a;
        assert ns'[i] == ns[if i < p then i else i + 1];
      }
    }
  }

  /** One turn of insert's loop. */
  method WireIn<K, V>(head: Pointers<K, V>, ghost ns: seq<Node<K, V>>, ghost p: nat, x: Node<K, V>, i: nat,
      a: Pointers<K, V>, ghost q: nat)
    requires p <= |ns| && Apart(head, ns) && i < x.next.Length <= MAX_LEVEL && x.next !in Arrays(head, ns)
    requires Between(head, Inserted(ns, p, x), ns, i)
    requires Precedes(head, ns, p, i, q) && a == Table(head, ns, q)
    modifies x.next, a
    ensures Between(head, Inserted(ns, p, x), ns, i + 1)
  {
    ghost var ns' := Inserted(ns, p, x);
    InsertedArrays(head, ns, p, x);
    TableIn(head, ns, q);
    SpliceIn(head, ns, p, x, i, a, q);
    forall l, r | 0 <= l < i && 0 <= r <= |ns'| && l < Table(head, ns', r).Length
      ensures Table(head, ns', r)[l] == First(ns'[r..], l)
    {
      TableIn(head, ns', r);
      assert old(LevelOk(head, ns', l));
    }
    forall l, r | i < l < MAX_LEVEL && 0 <= r <= |ns| && l < Table(head, ns, r).Length
      ensures Table(head, ns, r)[l] == First(ns[r..], l)
    {
      TableIn(head, ns, r);
      assert old(LevelOk(head, ns, l));
    }
  }

  /** One turn of erase's loop. */
  method WireOut<K, V>(head: Pointers<K, V>, ghost ns: seq<Node<K, V>>, ghost p: nat, x: Node<K, V>, i: nat,
      a: Pointers<K, V>, ghost q: nat)
    requires p < |ns| && x == ns[p] && Apart(head, ns) && i < x.next.Length <= MAX_LEVEL
    requires Between(head, Removed(ns, p), ns, i)
    requires Precedes(head, ns, p, i, q) && a == Table(head, ns, q)
    modifies a
    ensures Between(head, Removed(ns, p), ns, i + 1)
  {
    ghost var ns' := Removed(ns, p);
    RemovedArrays(head, ns, p);
    TableIn(head, ns, q);
    SpliceOut(head, ns, p, x, i, a, q);
    forall l, r | 0 <= l < i && 0 <= r <= |ns'| && l < Table(head, ns', r).Length
      ensures Table(head, ns', r)[l] == First(ns'[r..], l)
    {
      TableIn(head, ns', r);
      assert old(LevelOk(head, ns', l));
    }
    forall l, r | i < l < MAX_LEVEL && 0 <= r <= |ns| && l < Table(head, ns, r).Length
      ensures Table(head, ns, r)[l] == First(ns[r..], l)
    {
      TableIn(head, ns, r);
      assert old(LevelOk(head, ns, l));
    }
  }

  lemma LinkedInserted<K, V>(head: Pointers<K, V>, ns: seq<Node<K, V>>, p: nat, x: Node<K, V>)
    requires p <= |ns| && Apart(head, ns) && 1 <= x.next.Length <= MAX_LEVEL && x.next !in Arrays(head, ns)
    requires Between(head, Inserted(ns, p, x), ns, x.next.Length)
    ensures Linked(head, Inserted(ns, p, x))
  {
    ApartInserted(head, ns, p, x);
    forall l | x.next.Length <= l < MAX_LEVEL ensures LevelOk(head, Inserted(ns, p, x), l) {
      LevelAbove(head, ns, p, x, l);
    }
  }

  lemma ApartInserted<K, V>(head: Pointers<K, V>, ns: seq<Node<K, V>>, p: nat, x: Node<K, V>)
    requires p <= |ns| && Apart(head, ns) && 1 <= x.next.Length <= MAX_LEVEL && x.next !in Arrays(head, ns)
    ensures Apart(head, Inserted(ns, p, x))
  {
    assert forall i :: 0 <= i < |ns| ==> ns[i].next in Arrays(head, ns);
  }

  lemma LinkedRemoved<K, V>(head: Pointers<K, V>, ns: seq<Node<K, V>>, p: nat)
    requires p < |ns| && Apart(head, ns) && Between(head, Removed(ns, p), ns, ns[p].next.Length)
    ensures Linked(head, Removed(ns, p))
  {
    forall l | ns[p].next.Length <= l < MAX_LEVEL ensures LevelOk(head, Removed(ns, p), l) {
      LevelBeyond(head, ns, p, l);
    }
  }
}
