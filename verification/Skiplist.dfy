/** Skiplist: an ordered map over nodes with towers of pointers, whatever the heights of the towers. */
module Skiplists {
  import opened Ordering
  import opened SkiplistNodes
  import opened SkiplistLinks

  /** Keys ascend strictly. */
  ghost predicate Ascending<K, V>(less: Less<K>, ns: seq<Node<K, V>>) {
    forall i, j :: 0 <= i < j < |ns| ==> !Le(less, ns[j].key, ns[i].key)
  }

  /** p is where key belongs: all before precede it, none behind does. */
  ghost predicate Pivot<K, V>(less: Less<K>, ns: seq<Node<K, V>>, key: K, p: nat) {
    && p <= |ns|
    && (forall i :: 0 <= i < p ==> !Le(less, key, ns[i].key))
    && (forall i :: p <= i < |ns| ==> Le(less, key, ns[i].key))
  }

  /** The search has come to position q. */
  ghost predicate Reached<K, V>(less: Less<K>, ns: seq<Node<K, V>>, key: K, q: nat) {
    q <= |ns| && (q > 0 ==> !Le(less, key, ns[q - 1].key))
  }

  /** And goes no further at level l. */
  ghost predicate Stops<K, V>(less: Less<K>, ns: seq<Node<K, V>>, key: K, q: nat, l: nat) {
    Reached(less, ns, key, q) && (First(ns[q..], l) != null ==> Le(less, key, First(ns[q..], l).key))
  }

  lemma ReachedBefore<K(!new), V>(less: Less<K>, ns: seq<Node<K, V>>, key: K, q: nat)
    requires StrictWeak(less) && Ascending(less, ns) && Reached(less, ns, key, q)
    ensures forall i :: 0 <= i < q ==> !Le(less, key, ns[i].key)
  {
    forall i | 0 <= i < q ensures !Le(less, key, ns[i].key) {
      if i < q - 1 {
        assert !Le(less, ns[q - 1].key, ns[i].key);
        assert Le(less, ns[i].key, ns[q - 1].key);
      }
    }
  }

  /** At the bottom level the search has found the place. */
  lemma BottomPivot<K(!new), V>(less: Less<K>, ns: seq<Node<K, V>>, key: K, q: nat)
    requires StrictWeak(less) && Ascending(less, ns) && Stops(less, ns, key, q, 0)
    requires forall i :: 0 <= i < |ns| ==> ns[i].next.Length >= 1
    ensures Pivot(less, ns, key, q)
  {
    ReachedBefore(less, ns, key, q);
    if q < |ns| {
      assert First(ns[q..], 0) == ns[q];
      forall i | q < i < |ns| ensures Le(less, key, ns[i].key) {
        assert !Le(less, ns[i].key, ns[q].key);
        assert Le(less, ns[q].key, ns[i].key);
      }
    }
  }

  /** Where it stopped at a level is the table that precedes the place there. */
  lemma StopsPrecedes<K(!new), V>(less: Less<K>, ns: seq<Node<K, V>>, key: K, p: nat, q: nat, l: nat)
    requires StrictWeak(less) && Pivot(less, ns, key, p) && Stops(less, ns, key, q, l)
    ensures q <= p && First(ns[q..p], l) == null
  {
    assert q <= p;
    if First(ns[q..], l) == null {
      FirstNull(ns[q..], l);
      assert forall j :: q <= j < p ==> ns[j] == ns[q..][j - q];
    } else {
      var i := FirstAt(ns[q..], l);
      assert ns[q..][i] == ns[q + i];
      assert forall j :: q <= j < q + i ==> ns[j] == ns[q..][j - q];
    }
    FirstNull(ns[q..p], l);
  }

  /** The tables that precede p at each level, and their positions. */
  ghost predicate Predecessors<K, V>(head: Pointers<K, V>, ns: seq<Node<K, V>>, p: nat, preds: seq<Pointers<K, V>>,
      qs: seq<nat>) {
    && p <= |ns| && |preds| == |qs|
    && forall l :: 0 <= l < |qs| ==> Precedes(head, ns, p, l, qs[l]) && preds[l] == Table(head, ns, qs[l])
  }

  /** Where the search stopped, from level upwards. */
  ghost predicate Stopped<K, V>(head: Pointers<K, V>, less: Less<K>, ns: seq<Node<K, V>>, key: K, level: nat,
      preds: seq<Pointers<K, V>>, qs: seq<nat>) {
    && |preds| == |qs|
    && forall l :: 0 <= l < |qs| ==>
      Stops(less, ns, key, qs[l], level + l) && preds[l] == Table(head, ns, qs[l]) && level + l < preds[l].Length
  }

  lemma StoppedNext<K, V>(head: Pointers<K, V>, less: Less<K>, ns: seq<Node<K, V>>, key: K, level: nat,
      preds: seq<Pointers<K, V>>, qs: seq<nat>, q: nat)
    requires Stopped(head, less, ns, key, level + 1, preds, qs)
    requires Stops(less, ns, key, q, level) && level < Table(head, ns, q).Length
    ensures Stopped(head, less, ns, key, level, [Table(head, ns, q)] + preds, [q] + qs)
  {
    var qs' := [q] + qs;
    forall l | 0 <= l < |qs'| ensures Stops(less, ns, key, qs'[l], level + l) {
      assert l > 0 ==> Stops(less, ns, key, qs[l - 1], level + 1 + (l - 1));
    }
  }

  lemma StoppedPrecede<K(!new), V>(head: Pointers<K, V>, less: Less<K>, ns: seq<Node<K, V>>, key: K, p: nat,
      preds: seq<Pointers<K, V>>, qs: seq<nat>)
    requires StrictWeak(less) && Pivot(less, ns, key, p) && Stopped(head, less, ns, key, 0, preds, qs)
    ensures Predecessors(head, ns, p, preds, qs)
  {
    forall l | 0 <= l < |qs| ensures Precedes(head, ns, p, l, qs[l]) {
      assert Stops(less, ns, key, qs[l], 0 + l);
      StopsPrecedes(less, ns, key, p, qs[l], l);
    }
  }

  ghost function NodeSet<K, V>(ns: seq<Node<K, V>>): set<Node<K, V>> {
    set i | 0 <= i < |ns| :: ns[i]
  }

  ghost function EntriesOf<K, V>(ns: seq<Node<K, V>>): (e: seq<(K, V)>)
    reads NodeSet(ns)
    ensures |e| == |ns| && forall i :: 0 <= i < |ns| ==> e[i] == (ns[i].key, ns[i].value)
  {
    seq(|ns|, i requires 0 <= i < |ns| reads NodeSet(ns) => (ns[i].key, ns[i].value))
  }

  class Skiplist<K(!new), V> {
    const mList: Pointers<K, V>
    const less: Less<K>
    var mHighestLevel: nat
    var mSize: nat
    ghost var nodes: seq<Node<K, V>>

    /** The nodes ascend and are linked right at every level. */
    ghost predicate Wired()
      reads this, Arrays(mList, nodes)
    {
      && StrictWeak(less) && Linked(mList, nodes) && Ascending(less, nodes) && mSize == |nodes|
      && forall i :: 0 <= i < |nodes| ==> nodes[i].next.Length <= mHighestLevel + 1
    }

    /** And a scan, which starts at the highest level, starts inside the pointer table. */
    ghost predicate Valid()
      reads this, Arrays(mList, nodes)
    {
      Wired() && mHighestLevel < mList.Length
    }

    /** The entries in ascending order of their keys. */
    ghost function Entries(): seq<(K, V)>
      reads this, NodeSet(nodes)
    {
      EntriesOf(nodes)
    }

    constructor (less: Less<K>)
      requires StrictWeak(less)
      ensures Valid() && fresh(mList) && nodes == [] && this.less == less
    {
      this.less := less;
      mList := new Node?<K, V>[MAX_LEVEL](_ => null);
      mHighestLevel, mSize, nodes := 0, 0, [];
    }

    // ---- searching ----

    /** Walks along one level as long as the next key precedes. */
    method Walk(key: K, level: nat, start: Pointers<K, V>, ghost q: nat) returns (table: Pointers<K, V>, ghost r: nat)
      requires Valid() && Reached(less, nodes, key, q) && start == Table(mList, nodes, q) && level < start.Length &&
        level < MAX_LEVEL
      ensures Valid() && Stops(less, nodes, key, r, level) && table == Table(mList, nodes, r) && level < table.Length
    {
      table, r := start, q;
      while table[level] != null && less(table[level].key, key)
        invariant Reached(less, nodes, key, r) && table == Table(mList, nodes, r) && level < table.Length
        invariant Valid()
        decreases |nodes| - r
      {
        assert LevelOk(mList, nodes, level);
        ghost var i := FirstAt(nodes[r..], level);
        assert nodes[r..][i] == nodes[r + i];
        table, r := table[level].next, r + i + 1;
      }
      assert LevelOk(mList, nodes, level);
    }

    method FindNode(key: K) returns (node: Node?<K, V>)
      requires Valid()
      ensures node == null ==> forall i :: 0 <= i < |nodes| ==> !Equiv(less, nodes[i].key, key)
      ensures node != null ==> node in nodes && Equiv(less, node.key, key)
    {
      var table, level: nat := mList, mHighestLevel;
      ghost var q := 0;
      table, q := Walk(key, level, table, q);
      while level > 0
        invariant Valid() && level < MAX_LEVEL && Stops(less, nodes, key, q, level) &&
          table == Table(mList, nodes, q) && level < table.Length
      {
        level := level - 1;
        table, q := Walk(key, level, table, q);
      }
      BottomPivot(less, nodes, key, q);
      node := At(table, key, q);
    }

    /** What the bottom pointer says. */
    method At(table: Pointers<K, V>, key: K, ghost p: nat) returns (node: Node?<K, V>)
      requires Valid() && Pivot(less, nodes, key, p) && table == Table(mList, nodes, p)
      ensures Valid()
      ensures node == null ==> forall i :: 0 <= i < |nodes| ==> !Equiv(less, nodes[i].key, key)
      ensures node != null ==> p < |nodes| && node == nodes[p] && Equiv(less, node.key, key)
    {
      assert LevelOk(mList, nodes, 0);
      assert p < |nodes| ==> nodes[p..][0] == nodes[p];
      assert p < |nodes| ==> First(nodes[p..], 0) == nodes[p];
      if table[0] != null && !less(key, table[0].key) && !less(table[0].key, key) {
        return table[0];
      }
      forall i | 0 <= i < |nodes| ensures !Equiv(less, nodes[i].key, key) {
        if i > p {
          assert !Le(less, nodes[i].key, nodes[p].key);
          assert Le(less, nodes[p].key, key) || Le(less, key, nodes[p].key);
        }
      }
      return null;
    }

    /** Level by level down, recording where each walk stopped. */
    method Descend(key: K) returns (table: Pointers<K, V>, preds: seq<Pointers<K, V>>, ghost qs: seq<nat>, ghost p: nat)
      requires Valid()
      ensures Valid() && Stops(less, nodes, key, p, 0) && table == Table(mList, nodes, p)
      ensures |preds| == mHighestLevel + 1 && Stopped(mList, less, nodes, key, 0, preds, qs)
    {
      var level: nat := mHighestLevel;
      table, p := Walk(key, level, mList, 0);
      preds, qs := [], [];
      StoppedNext(mList, less, nodes, key, level, preds, qs, p);
      preds, qs := [table] + preds, [p] + qs;
      while level > 0
        invariant Valid() && level < MAX_LEVEL && Stops(less, nodes, key, p, level) &&
          table == Table(mList, nodes, p) && level < table.Length
        invariant |preds| == mHighestLevel + 1 - level && Stopped(mList, less, nodes, key, level, preds, qs)
      {
        level := level - 1;
        table, p := Walk(key, level, table, p);
        StoppedNext(mList, less, nodes, key, level, preds, qs, p);
        preds, qs := [table] + preds, [p] + qs;
      }
    }

    method FindNodeAndPredecessors(key: K)
        returns (node: Node?<K, V>, preds: seq<Pointers<K, V>>, ghost qs: seq<nat>, ghost p: nat)
      requires Valid()
      ensures Valid() && Pivot(less, nodes, key, p) && |preds| == mHighestLevel + 1 &&
        Predecessors(mList, nodes, p, preds, qs)
      ensures Entries() == old(Entries())
      ensures node == null ==> forall i :: 0 <= i < |nodes| ==> !Equiv(less, nodes[i].key, key)
      ensures node != null ==> p < |nodes| && node == nodes[p] && Equiv(less, node.key, key)
    {
      var table;
      table, preds, qs, p := Descend(key);
      BottomPivot(less, nodes, key, p);
      StoppedPrecede(mList, less, nodes, key, p, preds, qs);
      node := At(table, key, p);
    }

    // ---- inserting and erasing ----

    /**
      Puts the new node into every level it reaches, behind the predecessors or, above the highest
      level, at the front.
     */
    method WireAllIn(ghost p: nat, x: Node<K, V>, preds: seq<Pointers<K, V>>, ghost qs: seq<nat>)
      requires Valid() && Predecessors(mList, nodes, p, preds, qs) && |preds| == mHighestLevel + 1
      requires 1 <= x.next.Length <= MAX_LEVEL && x.next !in Arrays(mList, nodes)
      modifies x.next, Arrays(mList, nodes)
      ensures Linked(mList, Inserted(nodes, p, x))
    {
      ghost var ns := nodes;
      for i := 0 to x.next.Length
        invariant Between(mList, Inserted(ns, p, x), ns, i)
      {
        if i > mHighestLevel {
          FrontPrecedes(mList, ns, p, i, mHighestLevel + 1);
          TableIn(mList, ns, 0);
          WireIn(mList, ns, p, x, i, mList, 0);
        } else {
          TableIn(mList, ns, qs[i]);
          WireIn(mList, ns, p, x, i, preds[i], qs[i]);
        }
      }
      LinkedInserted(mList, ns, p, x);
    }

    /** The level drawn is any of 1 to MAX_LEVEL; after the greatest the next scan leaves the pointer table. */
    method Insert(key: K, value: V) returns (node: Node<K, V>, inserted: bool, ghost p: nat, ghost level: nat)
      requires Valid()
      modifies this, Arrays(mList, nodes)
      ensures inserted ==> 1 <= level <= MAX_LEVEL && node.next.Length == level
      ensures Valid() <==> inserted ==> level < MAX_LEVEL
      ensures mHighestLevel == if inserted && level > old(mHighestLevel) then level else old(mHighestLevel)
      ensures Wired() && Equiv(less, node.key, key) && node in nodes
      ensures inserted <==> forall i :: 0 <= i < |old(nodes)| ==> !Equiv(less, old(nodes)[i].key, key)
      ensures !inserted ==> nodes == old(nodes)
      ensures inserted ==> fresh(node) && fresh(node.next) && node.key == key && node.value == value
      ensures inserted ==> p <= |old(nodes)| && nodes == Inserted(old(nodes), p, node)
      ensures Entries() == if inserted then Inserted(old(Entries()), p, (key, value)) else old(Entries())
    {
      var entry, preds;
      ghost var qs;
      entry, preds, qs, p := FindNodeAndPredecessors(key);
      if entry != null {
        return entry, false, p, 0;
      }
      node, level := InsertNew(key, value, p, preds, qs);
      inserted := true;
      assert Le(less, key, key);
    }

    method InsertNew(key: K, value: V, ghost p: nat, preds: seq<Pointers<K, V>>, ghost qs: seq<nat>)
        returns (node: Node<K, V>, ghost level: nat)
      requires Valid() && Pivot(less, nodes, key, p) && |preds| == mHighestLevel + 1 &&
        Predecessors(mList, nodes, p, preds, qs)
      requires forall i :: 0 <= i < |nodes| ==> !Equiv(less, nodes[i].key, key)
      modifies this, Arrays(mList, nodes)
      ensures mHighestLevel == if level > old(mHighestLevel) then level else old(mHighestLevel)
      ensures 1 <= level <= MAX_LEVEL && node.next.Length == level && (Valid() <==> level < MAX_LEVEL)
      ensures Wired() && fresh(node) && fresh(node.next) && node.key == key && node.value == value
      ensures nodes == Inserted(old(nodes), p, node) && node in nodes &&
        Entries() == Inserted(old(Entries()), p, (key, value))
    {
      var height :| 1 <= height <= MAX_LEVEL;
      ghost var values := Entries();
      level := height;
      node := new Node(key, value, height);
      assert Entries() == values;
      AddNode(node, p, preds, qs);
      assert nodes[p] == node;
    }

    method AddNode(x: Node<K, V>, ghost p: nat, preds: seq<Pointers<K, V>>, ghost qs: seq<nat>)
      requires Valid() && Pivot(less, nodes, x.key, p) && |preds| == mHighestLevel + 1 &&
        Predecessors(mList, nodes, p, preds, qs)
      requires forall i :: 0 <= i < |nodes| ==> !Equiv(less, nodes[i].key, x.key)
      requires 1 <= x.next.Length <= MAX_LEVEL && x.next !in Arrays(mList, nodes)
      modifies this, x.next, Arrays(mList, nodes)
      ensures mHighestLevel == if x.next.Length > old(mHighestLevel) then x.next.Length else old(mHighestLevel)
      ensures Wired() && (Valid() <==> x.next.Length < MAX_LEVEL) && nodes == Inserted(old(nodes), p, x) &&
        Entries() == Inserted(old(Entries()), p, (x.key, x.value))
    {
      ghost var before, values := nodes, Entries();
      var level := x.next.Length;
      AscendingInserted(less, nodes, p, x);
      WireAllIn(p, x, preds, qs);
      HeightsInserted(nodes, p, x, mHighestLevel + 1, level);
      Adopt(Inserted(nodes, p, x), if mHighestLevel > level then mHighestLevel else level, mSize + 1);
      forall i | 0 <= i < |nodes| ensures Entries()[i] == Inserted(values, p, (x.key, x.value))[i] {
        assert i < p ==> nodes[i] == before[i];
        assert i > p ==> nodes[i] == before[i - 1];
      }
    }

    method WireAllOut(ghost p: nat, x: Node<K, V>, preds: seq<Pointers<K, V>>, ghost qs: seq<nat>)
      requires Valid() && Predecessors(mList, nodes, p, preds, qs) && |preds| == mHighestLevel + 1
      requires p < |nodes| && x == nodes[p]
      modifies Arrays(mList, nodes)
      ensures Linked(mList, Removed(nodes, p))
    {
      ghost var ns := nodes;
      for i := 0 to x.next.Length
        invariant Between(mList, Removed(ns, p), ns, i)
      {
        TableIn(mList, ns, qs[i]);
        WireOut(mList, ns, p, x, i, preds[i], qs[i]);
      }
      LinkedRemoved(mList, ns, p);
    }

    /** Steps down from a level without nodes. */
    method Lower(ghost ns: seq<Node<K, V>>, top: nat) returns (highest: nat)
      requires Linked(mList, ns) && top < MAX_LEVEL && forall i :: 0 <= i < |ns| ==> ns[i].next.Length <= top + 1
      ensures Linked(mList, ns) && highest <= top && forall i :: 0 <= i < |ns| ==> ns[i].next.Length <= highest + 1
      ensures highest == 0 || mList[highest] != null
    {
      highest := top;
      while highest > 0 && mList[highest] == null
        invariant Linked(mList, ns) && highest <= top && forall i :: 0 <= i < |ns| ==> ns[i].next.Length <= highest + 1
      {
        assert LevelOk(mList, ns, highest) && Table(mList, ns, 0) == mList && ns[0..] == ns;
        FirstNull(ns, highest);
        highest := highest - 1;
      }
    }

    method Erase(key: K) returns (erased: bool, ghost p: nat)
      requires Valid()
      modifies this, Arrays(mList, nodes)
      ensures Valid()
      ensures erased <==> exists i :: 0 <= i < |old(nodes)| && Equiv(less, old(nodes)[i].key, key)
      ensures !erased ==> nodes == old(nodes) && mHighestLevel == old(mHighestLevel)
      ensures erased ==> mHighestLevel <= old(mHighestLevel) && (mHighestLevel == 0 || mList[mHighestLevel] != null)
      ensures erased ==> p < |old(nodes)| && Equiv(less, old(nodes)[p].key, key) && nodes == Removed(old(nodes), p)
      ensures Entries() == if erased then Removed(old(Entries()), p) else old(Entries())
    {
      var entry, preds;
      ghost var qs;
      entry, preds, qs, p := FindNodeAndPredecessors(key);
      if entry == null {
        return false, p;
      }
      EraseNode(entry, p, preds, qs);
      return true, p;
    }

    method EraseNode(x: Node<K, V>, ghost p: nat, preds: seq<Pointers<K, V>>, ghost qs: seq<nat>)
      requires Valid() && Predecessors(mList, nodes, p, preds, qs) && |preds| == mHighestLevel + 1
      requires p < |nodes| && x == nodes[p]
      modifies this, Arrays(mList, nodes)
      ensures Valid() && nodes == Removed(old(nodes), p)
      ensures mHighestLevel <= old(mHighestLevel) && (mHighestLevel == 0 || mList[mHighestLevel] != null)
    {
      AscendingRemoved(less, nodes, p);
      WireAllOut(p, x, preds, qs);
      var highest := Lower(Removed(nodes, p), mHighestLevel);
      Adopt(Removed(nodes, p), highest, mSize - 1);
    }

    /** Takes over a list that is wired already. */
    method Adopt(ghost ns: seq<Node<K, V>>, highest: nat, size: nat)
      requires StrictWeak(less) && Linked(mList, ns) && Ascending(less, ns) && size == |ns|
      requires forall i :: 0 <= i < |ns| ==> ns[i].next.Length <= highest + 1
      modifies this
      ensures Wired() && nodes == ns && mHighestLevel == highest
    {
      mHighestLevel, mSize, nodes := highest, size, ns;
      forall l, q | 0 <= l < MAX_LEVEL && 0 <= q <= |ns| && l < Table(mList, ns, q).Length
        ensures Table(mList, ns, q)[l] == First(ns[q..], l)
      {
        TableIn(mList, ns, q);
        assert old(LevelOk(mList, ns, l));
      }
    }
  }

  lemma HeightsInserted<K, V>(ns: seq<Node<K, V>>, p: nat, x: Node<K, V>, height: nat, level: nat)
    requires p <= |ns| && x.next.Length == level && forall i :: 0 <= i < |ns| ==> ns[i].next.Length <= height
    ensures forall i :: 0 <= i <= |ns| ==> Inserted(ns, p, x)[i].next.Length <= if height > level then height else level
  {
  }

  /** Where no node is tall enough, the list itself precedes. */
  lemma FrontPrecedes<K, V>(head: Pointers<K, V>, ns: seq<Node<K, V>>, p: nat, l: nat, height: nat)
    requires p <= |ns| && l < head.Length && height <= l && forall i :: 0 <= i < |ns| ==> ns[i].next.Length <= height
    ensures Precedes(head, ns, p, l, 0)
  {
    FirstNull(ns[0..p], l);
  }

  lemma AscendingInserted<K(!new), V>(less: Less<K>, ns: seq<Node<K, V>>, p: nat, x: Node<K, V>)
    requires StrictWeak(less) && Ascending(less, ns) && Pivot(less, ns, x.key, p)
    requires forall i :: 0 <= i < |ns| ==> !Equiv(less, ns[i].key, x.key)
    ensures Ascending(less, Inserted(ns, p, x))
  {
  }

  lemma AscendingRemoved<K(!new), V>(less: Less<K>, ns: seq<Node<K, V>>, p: nat)
    requires Ascending(less, ns) && p < |ns|
    ensures Ascending(less, Removed(ns, p))
  {
  }

  // ---- copying ----

  /** A key behind all others has its place at the end. */
  lemma LastPlace<K(!new), V>(less: Less<K>, ns: seq<Node<K, V>>, p: nat, x: Node<K, V>)
    requires StrictWeak(less) && p < |ns| && !Le(less, x.key, ns[p].key)
    ensures !Ascending(less, Inserted(ns, p, x))
  {
    var ns' := Inserted(ns, p, x);
    assert ns'[p] == x && ns'[p + 1] == ns[p];
    assert Le(less, ns[p].key, x.key);
  }

  /** Inserts behind all others. */
  method Append<K(!new), V>(copy: Skiplist<K, V>, key: K, value: V) returns (ghost level: nat)
    requires copy.Valid() && forall j :: 0 <= j < |copy.nodes| ==> !Le(copy.less, key, copy.nodes[j].key)
    modifies copy, Arrays(copy.mList, copy.nodes)
    ensures copy.Wired() && 1 <= level <= MAX_LEVEL && (copy.Valid() <==> level < MAX_LEVEL)
    ensures fresh(Arrays(copy.mList, copy.nodes) - old(Arrays(copy.mList, copy.nodes)))
    ensures copy.Entries() == old(copy.Entries()) + [(key, value)]
  {
    ghost var ns, done := copy.nodes, copy.Entries();
    ghost var p;
    var node, inserted;
    node, inserted, p, level := copy.Insert(key, value);
    if p < |ns| {
      LastPlace(copy.less, ns, p, node);
    }
    InsertedArrays(copy.mList, ns, p, node);
    assert Inserted(done, |ns|, (key, value)) == done + [(key, value)];
  }

  /** Copies one entry. */
  method CopyEntry<K(!new), V>(copy: Skiplist<K, V>, other: Skiplist<K, V>, curr: Node<K, V>, ghost i: nat)
      returns (ghost level: nat)
    requires copy.Valid() && other.Wired() && copy != other && copy.less == other.less
    requires Arrays(copy.mList, copy.nodes) !! Arrays(other.mList, other.nodes)
    requires i < |other.nodes| && curr == other.nodes[i] && copy.Entries() == other.Entries()[..i]
    modifies copy, Arrays(copy.mList, copy.nodes)
    ensures copy.Wired() && 1 <= level <= MAX_LEVEL && (copy.Valid() <==> level < MAX_LEVEL)
    ensures fresh(Arrays(copy.mList, copy.nodes) - old(Arrays(copy.mList, copy.nodes)))
    ensures copy.Entries() == old(other.Entries())[..i + 1]
  {
    ghost var all := other.Entries();
    forall j | 0 <= j < |copy.nodes| ensures !Le(copy.less, curr.key, copy.nodes[j].key) {
      assert copy.Entries()[j] == all[j];
      assert !Le(other.less, other.nodes[i].key, other.nodes[j].key);
    }
    level := Append(copy, curr.key, curr.value);
    assert all[..i] + [(curr.key, curr.value)] == all[..i + 1];
  }

  /** Copies one entry and moves on along the bottom level. */
  method CopyNext<K(!new), V>(copy: Skiplist<K, V>, other: Skiplist<K, V>, curr: Node<K, V>, ghost i: nat)
      returns (next: Node?<K, V>, ghost level: nat)
    requires copy.Valid() && other.Wired() && copy != other && copy.less == other.less
    requires Arrays(copy.mList, copy.nodes) !! Arrays(other.mList, other.nodes)
    requires i < |other.nodes| && curr == other.nodes[i] && copy.Entries() == other.Entries()[..i]
    modifies copy, Arrays(copy.mList, copy.nodes)
    ensures copy.Wired() && 1 <= level <= MAX_LEVEL && (copy.Valid() <==> level < MAX_LEVEL)
    ensures other.Wired() && other.nodes == old(other.nodes) && other.Entries() == old(other.Entries())
    ensures fresh(Arrays(copy.mList, copy.nodes) - old(Arrays(copy.mList, copy.nodes)))
    ensures copy.Entries() == other.Entries()[..i + 1]
    ensures next == First(other.nodes[i + 1..], 0)
  {
    level := CopyEntry(copy, other, curr, i);
    forall l, q | 0 <= l < MAX_LEVEL && 0 <= q <= |other.nodes| && l < Table(other.mList, other.nodes, q).Length
      ensures Table(other.mList, other.nodes, q)[l] == First(other.nodes[q..], l)
    {
      TableIn(other.mList, other.nodes, q);
      assert old(LevelOk(other.mList, other.nodes, l));
    }
    assert curr.next == Table(other.mList, other.nodes, i + 1);
    next := curr.next[0];
  }

  method Empty<K(!new), V>(other: Skiplist<K, V>) returns (copy: Skiplist<K, V>)
    requires other.Wired()
    ensures other.Wired() && other.Entries() == old(other.Entries())
    ensures fresh(copy) && copy.Valid() && copy.less == other.less && copy.nodes == [] && fresh(copy.mList)
  {
    copy := new Skiplist(other.less);
    forall l, q | 0 <= l < MAX_LEVEL && 0 <= q <= |other.nodes| && l < Table(other.mList, other.nodes, q).Length
      ensures Table(other.mList, other.nodes, q)[l] == First(other.nodes[q..], l)
    {
      TableIn(other.mList, other.nodes, q);
      assert old(LevelOk(other.mList, other.nodes, l));
    }
  }

  ghost predicate Inside(levels: seq<nat>) {
    forall i :: 0 <= i < |levels| ==> levels[i] < MAX_LEVEL
  }

  /** No level before the last is the greatest; valid says whether the last is not either. */
  ghost predicate Drawn(levels: seq<nat>, valid: bool) {
    (valid <==> Inside(levels)) && (levels != [] ==> Inside(levels[..|levels| - 1]))
  }

  lemma DrawnNext(levels: seq<nat>, level: nat)
    requires Drawn(levels, true)
    ensures Drawn(levels + [level], level < MAX_LEVEL)
  {
    assert (levels + [level])[..|levels|] == levels;
    assert (levels + [level])[|levels|] == level;
  }

  /** The copy has an entry for every level drawn, and curr is the next node to copy. */
  ghost predicate Copied<K(!new), V>(copy: Skiplist<K, V>, other: Skiplist<K, V>, curr: Node?<K, V>, levels: seq<nat>)
    reads copy, Arrays(copy.mList, copy.nodes), NodeSet(copy.nodes)
    reads other, Arrays(other.mList, other.nodes), NodeSet(other.nodes)
  {
    && copy.Wired() && other.Wired() && copy != other && copy.less == other.less
    && Arrays(copy.mList, copy.nodes) !! Arrays(other.mList, other.nodes)
    && Drawn(levels, copy.mHighestLevel < copy.mList.Length)
    && |levels| <= |other.nodes| && curr == First(other.nodes[|levels|..], 0)
    && copy.Entries() == other.Entries()[..|levels|]
  }

  method CopyStep<K(!new), V>(copy: Skiplist<K, V>, other: Skiplist<K, V>, curr: Node<K, V>, ghost levels: seq<nat>)
      returns (next: Node?<K, V>, ghost levels': seq<nat>)
    requires Copied(copy, other, curr, levels) && copy.mHighestLevel < copy.mList.Length
    modifies copy, Arrays(copy.mList, copy.nodes)
    ensures Copied(copy, other, next, levels') && |levels'| == |levels| + 1
    ensures other.nodes == old(other.nodes) && other.Entries() == old(other.Entries())
    ensures fresh(Arrays(copy.mList, copy.nodes) - old(Arrays(copy.mList, copy.nodes)))
  {
    ghost var i, level := |levels|, 0;
    assert i < |other.nodes| && other.nodes[i..][0] == other.nodes[i];
    next, level := CopyNext(copy, other, curr, i);
    DrawnNext(levels, level);
    levels' := levels + [level];
  }

  /**
    Inserts the entries one by one, until the next scan would leave the pointer table: all
    entries are copied exactly when no level before the last is the greatest.
   */
  method Copy<K(!new), V>(other: Skiplist<K, V>) returns (copy: Skiplist<K, V>, ghost levels: seq<nat>)
    requires other.Wired()
    ensures other.Wired() && fresh(copy) && copy.Wired() && Drawn(levels, copy.Valid())
    ensures |levels| <= |old(other.Entries())| && copy.Entries() == old(other.Entries())[..|levels|]
    ensures |levels| < |old(other.Entries())| ==> !copy.Valid()
  {
    assert LevelOk(other.mList, other.nodes, 0) && Table(other.mList, other.nodes, 0) == other.mList;
    assert other.nodes[0..] == other.nodes;
    var curr := other.mList[0];
    copy := Empty(other);
    levels := [];
    while curr != null && copy.mHighestLevel < copy.mList.Length
      invariant Copied(copy, other, curr, levels) && other.nodes == old(other.nodes) &&
        other.Entries() == old(other.Entries())
      invariant fresh(copy) && fresh(Arrays(copy.mList, copy.nodes))
      decreases |other.nodes| - |levels|
    {
      curr, levels := CopyStep(copy, other, curr, levels);
    }
    assert |levels| < |other.nodes| ==> other.nodes[|levels|..][0] == other.nodes[|levels|];
  }
}
