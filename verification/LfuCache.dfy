/** What a row of the cache is, and that rows do not share entries. */
module LfuState {
  import opened LfuRows
  import opened LfuGroups

  /** Entries of the node's frequency, least recently touched first. */
  ghost predicate Aged<K>(g: FreqNode<K>, row: seq<Entry<K>>, now: nat)
    reads g, Members(row)
  {
    && (forall i :: 0 <= i < |row| ==> row[i].hits == g.freq && row[i].touched < now)
    && (forall i, j :: 0 <= i < j < |row| ==> row[i].touched < row[j].touched)
  }

  /** A node with its row, which may be empty, and surplus more counted than there are. */
  ghost predicate Kept<K>(g: FreqNode<K>, row: seq<Entry<K>>, now: nat, surplus: int)
    reads g, Members(row)
  {
    Row(g, row) && g.count == |row| + surplus && Aged(g, row, now)
  }

  ghost predicate Ascending<K>(groups: seq<FreqNode<K>>)
    reads Members(groups)
  {
    forall j, k :: 0 <= j < k < |groups| ==> groups[j].freq < groups[k].freq
  }

  ghost function Objects<K>(groups: seq<FreqNode<K>>, rows: seq<seq<Entry<K>>>): set<object> {
    (set k | 0 <= k < |groups| :: groups[k] as object) +
      (set k, i | 0 <= k < |rows| && 0 <= i < |rows[k]| :: rows[k][i] as object)
  }

  /** Two rows have no entry in common: it would have two parents. */
  lemma Apart<K>(g: FreqNode<K>, row: seq<Entry<K>>, h: FreqNode<K>, other: seq<Entry<K>>)
    requires g != h && Row(g, row) && Row(h, other)
    ensures forall i :: 0 <= i < |row| ==> row[i] !in other
  {
    forall i, j | 0 <= i < |row| && 0 <= j < |other| ensures row[i] != other[j] {
      assert Link(g, row, i) && Link(h, other, j);
    }
  }

  lemma AgedAppend<K>(g: FreqNode<K>, row: seq<Entry<K>>, e: Entry<K>, now: nat)
    requires Aged(g, row, now) && e.hits == g.freq && e.touched == now
    ensures Aged(g, row + [e], now + 1)
  {
  }

  lemma AgedWithout<K>(g: FreqNode<K>, row: seq<Entry<K>>, i: nat, now: nat)
    requires Aged(g, row, now) && i < |row|
    ensures Aged(g, Without(row, i), now)
  {
    var row' := Without(row, i);
    assert forall j :: 0 <= j < |row'| ==> row'[j] == row[if j < i then j else j + 1];
  }

  /** e comes before x in the order of eviction: touched less often, or as often but longer ago. */
  ghost predicate NotAfter<K>(e: Entry<K>, x: Entry<K>)
    reads e, x
  {
    e.hits < x.hits || (e.hits == x.hits && e.touched <= x.touched)
  }

  /** The list of nodes: links agree and frequencies ascend from 1 on. */
  ghost predicate Listed<K>(head: FreqNode?<K>, gs: seq<FreqNode<K>>)
    reads Members(gs)
  {
    Groups(head, gs) && Ascending(gs) && forall k :: 0 <= k < |gs| ==> gs[k].freq >= 1
  }

  /** Every row is in order; node x, if any, still counts an entry that has left. */
  ghost predicate KeptAll<K>(gs: seq<FreqNode<K>>, rs: seq<seq<Entry<K>>>, x: int, now: nat)
    reads Objects(gs, rs)
  {
    |gs| == |rs| && forall k :: 0 <= k < |gs| ==> Kept(gs[k], rs[k], now, Surplus(k, x))
  }

  ghost function Surplus(k: int, x: int): int {
    if k == x then 1 else 0
  }

  /** Every row but row k. */
  ghost predicate KeptBut<K>(gs: seq<FreqNode<K>>, rs: seq<seq<Entry<K>>>, k: int, now: nat)
    reads Objects(gs, rs)
  {
    |gs| == |rs| && forall j :: 0 <= j < |gs| && j != k ==> Kept(gs[j], rs[j], now, 0)
  }

  lemma RowsApart<K>(gs: seq<FreqNode<K>>, rs: seq<seq<Entry<K>>>, x: int, now: nat, k: nat)
    requires Distinct(gs) && KeptAll(gs, rs, x, now) && k < |gs|
    ensures forall j, i :: 0 <= j < |gs| && j != k && 0 <= i < |rs[j]| ==> rs[j][i] !in rs[k]
  {
    forall j | 0 <= j < |gs| && j != k ensures forall i :: 0 <= i < |rs[j]| ==> rs[j][i] !in rs[k] {
      assert Kept(gs[j], rs[j], now, Surplus(j, x)) && Kept(gs[k], rs[k], now, Surplus(k, x));
      Apart(gs[j], rs[j], gs[k], rs[k]);
    }
  }
}

/** Operations on one row leave the other rows alone, operations on the list leave all rows alone. */
module LfuSteps {
  import opened LfuRows
  import opened LfuGroups
  import opened LfuState

  /** The entry at i leaves its row; the node still counts it. */
  method Leave<K>(g: FreqNode<K>, e: Entry<K>, ghost row: seq<Entry<K>>, ghost now: nat, ghost s: int, ghost i: nat)
    requires Kept(g, row, now, s) && i < |row| && e == row[i]
    modifies g`newest, g`oldest, Members(row)`newer, Members(row)`older
    ensures Kept(g, Without(row, i), now, s + 1)
  {
    Unlink(g, e, row, i);
    AgedWithout(g, row, i, now);
  }

  lemma KeptReplaced<K>(gs: seq<FreqNode<K>>, rs: seq<seq<Entry<K>>>, k: nat, row: seq<Entry<K>>, now: nat)
    requires k < |gs| && KeptBut(gs, rs, k, now) && Kept(gs[k], row, now, 1)
    ensures KeptAll(gs, rs[k := row], k, now)
  {
  }

  /** The entry leaves row k; the other rows stay as they are. */
  method UnlinkApart<K>(g: FreqNode<K>, e: Entry<K>, ghost gs: seq<FreqNode<K>>, ghost rs: seq<seq<Entry<K>>>,
      ghost now: nat, ghost k: nat, ghost i: nat)
    requires Distinct(gs) && KeptAll(gs, rs, -1, now) && k < |gs| && g == gs[k] && i < |rs[k]| && e == rs[k][i]
    modifies g`newest, g`oldest, Members(rs[k])`newer, Members(rs[k])`older
    ensures KeptBut(gs, rs, k, now) && Kept(g, Without(rs[k], i), now, 1)
  {
    RowsApart(gs, rs, -1, now, k);
    assert Kept(gs[k], rs[k], now, 0);
    Leave(g, e, rs[k], now, 0, i);
    forall j | 0 <= j < |gs| && j != k ensures Kept(gs[j], rs[j], now, 0) {
      assert old(Kept(gs[j], rs[j], now, 0));
      forall n | 0 <= n < |rs[j]| ensures Link(gs[j], rs[j], n) {
        assert old(Link(gs[j], rs[j], n));
      }
    }
  }

  /** And so does the list of nodes. */
  method UnlinkListed<K>(ghost head: FreqNode?<K>, g: FreqNode<K>, e: Entry<K>, ghost gs: seq<FreqNode<K>>,
      ghost rs: seq<seq<Entry<K>>>, ghost now: nat, ghost k: nat, ghost i: nat)
    requires Listed(head, gs) && KeptAll(gs, rs, -1, now) && k < |gs| && g == gs[k] && i < |rs[k]| && e == rs[k][i]
    modifies g`newest, g`oldest, Members(rs[k])`newer, Members(rs[k])`older
    ensures Listed(head, gs) && KeptBut(gs, rs, k, now) && Kept(g, Without(rs[k], i), now, 1)
  {
    UnlinkApart(g, e, gs, rs, now, k, i);
    forall j | 0 <= j < |gs| ensures GroupLink(gs, j) {
      assert old(GroupLink(gs, j));
    }
  }

  method UnlinkIn<K>(ghost head: FreqNode?<K>, g: FreqNode<K>, e: Entry<K>, ghost gs: seq<FreqNode<K>>,
      ghost rs: seq<seq<Entry<K>>>, ghost now: nat, ghost k: nat, ghost i: nat)
    requires Listed(head, gs) && KeptAll(gs, rs, -1, now) && k < |gs| && g == gs[k] && i < |rs[k]| && e == rs[k][i]
    modifies g`newest, g`oldest, Members(rs[k])`newer, Members(rs[k])`older
    ensures Listed(head, gs) && KeptAll(gs, rs[k := Without(rs[k], i)], k, now)
  {
    UnlinkListed(head, g, e, gs, rs, now, k, i);
    KeptReplaced(gs, rs, k, Without(rs[k], i), now);
  }

  /** The entry joins a row as its newest. */
  method Join<K>(g: FreqNode<K>, e: Entry<K>, ghost row: seq<Entry<K>>, ghost now: nat, ghost s: int)
    requires Kept(g, row, now, s) && e !in row
    modifies g`newest, g`oldest, g`count, e, Members(row)`newer
    ensures Kept(g, row + [e], now + 1, s) && e.hits == g.freq && e.touched == now
  {
    e.hits, e.touched := g.freq, now;
    forall n | 0 <= n < |row| ensures Link(g, row, n) {
      assert old(Link(g, row, n));
    }
    Insert(g, e, row);
    AgedAppend(g, row, e, now);
  }

  lemma KeptExtended<K>(gs: seq<FreqNode<K>>, rs: seq<seq<Entry<K>>>, x: int, k: nat, row: seq<Entry<K>>, now: nat)
    requires k < |gs| == |rs| && Kept(gs[k], row, now, Surplus(k, x))
    requires forall j :: 0 <= j < |gs| && j != k ==> Kept(gs[j], rs[j], now, Surplus(j, x))
    ensures KeptAll(gs, rs[k := row], x, now)
  {
  }

  /** The entry joins row k; the other rows stay as they are. */
  method JoinApart<K>(g: FreqNode<K>, e: Entry<K>, ghost gs: seq<FreqNode<K>>, ghost rs: seq<seq<Entry<K>>>,
      ghost x: int, ghost now: nat, ghost k: nat)
    requires Distinct(gs) && KeptAll(gs, rs, x, now) && k < |gs| && g == gs[k]
    requires forall j :: 0 <= j < |rs| ==> e !in rs[j]
    modifies g`newest, g`oldest, g`count, e, Members(rs[k])`newer
    ensures Kept(g, rs[k] + [e], now + 1, Surplus(k, x))
    ensures forall j :: 0 <= j < |gs| && j != k ==> Kept(gs[j], rs[j], now + 1, Surplus(j, x))
    ensures e.hits == g.freq && e.touched == now
  {
    RowsApart(gs, rs, x, now, k);
    assert Kept(gs[k], rs[k], now, Surplus(k, x));
    Join(g, e, rs[k], now, Surplus(k, x));
    forall j | 0 <= j < |gs| && j != k ensures Kept(gs[j], rs[j], now + 1, Surplus(j, x)) {
      assert old(Kept(gs[j], rs[j], now, Surplus(j, x)));
      forall n | 0 <= n < |rs[j]| ensures Link(gs[j], rs[j], n) {
        assert old(Link(gs[j], rs[j], n));
      }
    }
  }

  /** And so does the list of nodes. */
  method JoinListed<K>(ghost head: FreqNode?<K>, g: FreqNode<K>, e: Entry<K>, ghost gs: seq<FreqNode<K>>,
      ghost rs: seq<seq<Entry<K>>>, ghost x: int, ghost now: nat, ghost k: nat)
    requires Listed(head, gs) && KeptAll(gs, rs, x, now) && k < |gs| && g == gs[k]
    requires forall j :: 0 <= j < |rs| ==> e !in rs[j]
    modifies g`newest, g`oldest, g`count, e, Members(rs[k])`newer
    ensures Listed(head, gs) && Kept(g, rs[k] + [e], now + 1, Surplus(k, x))
    ensures forall j :: 0 <= j < |gs| && j != k ==> Kept(gs[j], rs[j], now + 1, Surplus(j, x))
    ensures e.hits == g.freq && e.touched == now
  {
    JoinApart(g, e, gs, rs, x, now, k);
    forall j | 0 <= j < |gs| ensures GroupLink(gs, j) {
      assert old(GroupLink(gs, j));
    }
  }

  method InsertIn<K>(ghost head: FreqNode?<K>, g: FreqNode<K>, e: Entry<K>, ghost gs: seq<FreqNode<K>>,
      ghost rs: seq<seq<Entry<K>>>, ghost x: int, ghost now: nat, ghost k: nat)
    requires Listed(head, gs) && KeptAll(gs, rs, x, now) && k < |gs| && g == gs[k]
    requires forall j :: 0 <= j < |rs| ==> e !in rs[j]
    modifies g`newest, g`oldest, g`count, e, Members(rs[k])`newer
    ensures Listed(head, gs) && KeptAll(gs, rs[k := rs[k] + [e]], x, now + 1)
    ensures e.hits == g.freq && e.touched == now
  {
    JoinListed(head, g, e, gs, rs, x, now, k);
    KeptExtended(gs, rs, x, k, rs[k] + [e], now + 1);
  }

  method DropOldest<K>(g: FreqNode<K>, ghost row: seq<Entry<K>>, ghost now: nat, ghost s: int)
      returns (key: K, some: bool)
    requires Kept(g, row, now, s) && row != []
    modifies g`oldest, g`count, Members(row)`older
    ensures key == row[0].key && (some <==> |row| > 1) && (some ==> Kept(g, row[1..], now, s))
  {
    key, some := LfuRows.Evict(g, row);
    ghost var row' := row[1..];
    assert forall i :: 0 <= i < |row'| ==> row'[i] == row[i + 1];
  }

  /** The oldest entry leaves the first row; the other rows stay as they are. */
  method DropApart<K>(head: FreqNode<K>, ghost gs: seq<FreqNode<K>>, ghost rs: seq<seq<Entry<K>>>, ghost now: nat)
      returns (key: K, some: bool)
    requires Distinct(gs) && KeptAll(gs, rs, -1, now) && gs != [] && head == gs[0] && rs[0] != []
    modifies head`oldest, head`count, Members(rs[0])`older
    ensures key == rs[0][0].key && (some <==> |rs[0]| > 1) && KeptBut(gs, rs, 0, now)
    ensures some ==> KeptAll(gs, rs[0 := rs[0][1..]], -1, now)
  {
    RowsApart(gs, rs, -1, now, 0);
    assert Kept(gs[0], rs[0], now, 0);
    key, some := DropOldest(head, rs[0], now, 0);
    forall j | 0 <= j < |gs| && j != 0 ensures Kept(gs[j], rs[j], now, 0) {
      assert old(Kept(gs[j], rs[j], now, 0));
      forall n | 0 <= n < |rs[j]| ensures Link(gs[j], rs[j], n) {
        assert old(Link(gs[j], rs[j], n));
      }
    }
  }

  /** Takes the oldest entry out of the coldest node. */
  method EvictIn<K>(head: FreqNode<K>, ghost gs: seq<FreqNode<K>>, ghost rs: seq<seq<Entry<K>>>, ghost now: nat)
      returns (key: K, some: bool)
    requires Listed(head, gs) && KeptAll(gs, rs, -1, now) && gs != [] && rs[0] != []
    modifies head`oldest, head`count, Members(rs[0])`older
    ensures key == rs[0][0].key && (some <==> |rs[0]| > 1)
    ensures Listed(head, gs) && KeptBut(gs, rs, 0, now)
    ensures some ==> KeptAll(gs, rs[0 := rs[0][1..]], -1, now)
  {
    key, some := DropApart(head, gs, rs, now);
    forall j | 0 <= j < |gs| ensures GroupLink(gs, j) {
      assert old(GroupLink(gs, j));
    }
  }

  /** A node with no entries, between or before the others. */
  ghost predicate Blank<K>(n: FreqNode<K>)
    reads n
  {
    n.count == 0 && n.newest == null && n.oldest == null
  }

  lemma KeptWith<K>(gs: seq<FreqNode<K>>, rs: seq<seq<Entry<K>>>, x: int, now: nat, k: nat, n: FreqNode<K>)
    requires KeptAll(gs, rs, x, now) && x < k <= |gs| && Blank(n)
    ensures KeptAll(WithAt(gs, k, n), WithAt(rs, k, []), x, now)
  {
    var gs', rs' := WithAt(gs, k, n), WithAt(rs, k, []);
    forall j | 0 <= j < |gs'| ensures Kept(gs'[j], rs'[j], now, Surplus(j, x)) {
      var m := if j < k then j else j - 1;
      assert j != k ==> gs'[j] == gs[m] && rs'[j] == rs[m];
    }
  }

  lemma AscendingWith<K>(gs: seq<FreqNode<K>>, k: nat, n: FreqNode<K>)
    requires Ascending(gs) && k <= |gs| && (k > 0 ==> gs[k - 1].freq < n.freq) && (k < |gs| ==> n.freq < gs[k].freq)
    requires n.freq >= 1 && forall j :: 0 <= j < |gs| ==> gs[j].freq >= 1
    ensures Ascending(WithAt(gs, k, n)) && forall j :: 0 <= j <= |gs| ==> WithAt(gs, k, n)[j].freq >= 1
  {
    assert forall j :: 0 <= j < k ==> gs[j].freq < n.freq;
    assert forall j :: k <= j < |gs| ==> n.freq < gs[j].freq;
  }

  lemma KeptWithout<K>(gs: seq<FreqNode<K>>, rs: seq<seq<Entry<K>>>, now: nat, k: nat)
    requires KeptBut(gs, rs, k, now) && k < |gs|
    ensures KeptAll(Without(gs, k), Without(rs, k), -1, now)
  {
    var gs', rs' := Without(gs, k), Without(rs, k);
    forall j | 0 <= j < |gs'| ensures Kept(gs'[j], rs'[j], now, 0) {
      var m := if j < k then j else j + 1;
      assert gs'[j] == gs[m] && rs'[j] == rs[m];
    }
  }

  lemma AscendingWithout<K>(gs: seq<FreqNode<K>>, k: nat)
    requires Ascending(gs) && k < |gs|
    ensures Ascending(Without(gs, k))
  {
  }

  method PushFrontIn<K>(head: FreqNode?<K>, n: FreqNode<K>, ghost gs: seq<FreqNode<K>>, ghost rs: seq<seq<Entry<K>>>,
      ghost now: nat)
    requires Listed(head, gs) && KeptAll(gs, rs, -1, now) && n !in gs && n.colder == null && Blank(n)
    requires n.freq == 1 && (gs != [] ==> gs[0].freq > 1)
    modifies n`hotter, Members(gs)`colder
    ensures Listed(n, WithAt(gs, 0, n)) && KeptAll(WithAt(gs, 0, n), WithAt(rs, 0, []), -1, now)
  {
    PushFront(head, n, gs);
    forall j | 0 <= j < |gs| ensures Kept(gs[j], rs[j], now, 0) {
      assert old(Kept(gs[j], rs[j], now, 0));
      forall i | 0 <= i < |rs[j]| ensures Link(gs[j], rs[j], i) {
        assert old(Link(gs[j], rs[j], i));
      }
    }
    KeptWith(gs, rs, -1, now, 0, n);
    AscendingWith(gs, 0, n);
  }

  method LinkBehind<K>(head: FreqNode<K>, p: FreqNode<K>, n: FreqNode<K>, ghost gs: seq<FreqNode<K>>, ghost k: nat)
    requires Listed(head, gs) && k < |gs| && p == gs[k] && n !in gs
    requires n.freq == p.freq + 1 && (k + 1 < |gs| ==> gs[k + 1].freq > n.freq)
    modifies n`hotter, n`colder, Members(gs)`hotter, Members(gs)`colder
    ensures Listed(head, WithAt(gs, k + 1, n))
  {
    PushBehind(head, p, n, gs, k);
    AscendingWith(gs, k + 1, n);
  }

  /** A new node disturbs nothing. */
  method NewNode<K>(freq: nat, ghost head: FreqNode?<K>, ghost gs: seq<FreqNode<K>>, ghost rs: seq<seq<Entry<K>>>,
      ghost x: int, ghost now: nat) returns (n: FreqNode<K>)
    requires Listed(head, gs) && KeptAll(gs, rs, x, now)
    ensures fresh(n) && n !in gs && n.freq == freq && Blank(n) && n.hotter == null && n.colder == null
    ensures Listed(head, gs) && KeptAll(gs, rs, x, now)
  {
    n := new FreqNode(freq);
    forall j | 0 <= j < |gs| ensures GroupLink(gs, j) {
      assert old(GroupLink(gs, j));
    }
    forall j | 0 <= j < |gs| ensures Kept(gs[j], rs[j], now, Surplus(j, x)) {
      assert old(Kept(gs[j], rs[j], now, Surplus(j, x)));
    }
  }

  /** The node at k counts one less. */
  method Recount<K>(p: FreqNode<K>, ghost head: FreqNode?<K>, ghost gs: seq<FreqNode<K>>, ghost rs: seq<seq<Entry<K>>>,
      ghost now: nat, ghost k: nat)
    requires Listed(head, gs) && KeptAll(gs, rs, k, now) && k < |gs| && p == gs[k]
    modifies p`count
    ensures Listed(head, gs) && KeptAll(gs, rs, -1, now)
  {
    p.count := p.count - 1;
    forall j | 0 <= j < |gs| ensures GroupLink(gs, j) {
      assert old(GroupLink(gs, j));
    }
    forall j | 0 <= j < |gs| ensures Kept(gs[j], rs[j], now, 0) {
      assert old(Kept(gs[j], rs[j], now, Surplus(j, k)));
      forall n | 0 <= n < |rs[j]| ensures Link(gs[j], rs[j], n) {
        assert old(Link(gs[j], rs[j], n));
      }
    }
  }

  /** The only entry of a node is touched, and the node with it. */
  method HeatRow<K>(p: FreqNode<K>, e: Entry<K>, ghost row: seq<Entry<K>>, ghost now: nat)
    requires row == [e] && Kept(p, row, now, 0)
    modifies p`freq, e`hits, e`touched
    ensures Kept(p, row, now + 1, 0) && p.freq == old(p.freq) + 1 && e.hits == old(e.hits) + 1 && e.touched == now
  {
    assert row[0] == e && Link(p, row, 0);
    p.freq := p.freq + 1;
    e.hits, e.touched := e.hits + 1, now;
    assert Link(p, row, 0);
  }

  method HeatRows<K>(p: FreqNode<K>, e: Entry<K>, ghost gs: seq<FreqNode<K>>, ghost rs: seq<seq<Entry<K>>>,
      ghost now: nat, ghost k: nat)
    requires Distinct(gs) && KeptAll(gs, rs, -1, now) && k < |gs| && p == gs[k] && rs[k] == [e]
    modifies p`freq, e`hits, e`touched
    ensures KeptAll(gs, rs, -1, now + 1) && p.freq == old(p.freq) + 1 && e.hits == old(e.hits) + 1 && e.touched == now
  {
    RowsApart(gs, rs, -1, now, k);
    assert Kept(gs[k], rs[k], now, 0) && rs[k][0] == e;
    HeatRow(p, e, rs[k], now);
    forall j | 0 <= j < |gs| && j != k ensures Kept(gs[j], rs[j], now + 1, 0) {
      assert old(Kept(gs[j], rs[j], now, 0));
      forall n | 0 <= n < |rs[j]| ensures Link(gs[j], rs[j], n) {
        assert old(Link(gs[j], rs[j], n));
      }
    }
  }

  /** The only entry of its node, with room above: the node itself becomes hotter. */
  method HeatIn<K>(ghost head: FreqNode?<K>, p: FreqNode<K>, e: Entry<K>, ghost gs: seq<FreqNode<K>>,
      ghost rs: seq<seq<Entry<K>>>, ghost now: nat, ghost k: nat)
    requires Listed(head, gs) && KeptAll(gs, rs, -1, now) && k < |gs| && p == gs[k] && rs[k] == [e]
    requires k + 1 < |gs| ==> gs[k + 1].freq != p.freq + 1
    modifies p`freq, e`hits, e`touched
    ensures Listed(head, gs) && KeptAll(gs, rs, -1, now + 1) && e.hits == old(e.hits) + 1 && e.touched == now
  {
    HeatRows(p, e, gs, rs, now, k);
    forall j | 0 <= j < |gs| ensures GroupLink(gs, j) && (j != k ==> gs[j].freq == old(gs[j].freq)) {
      assert old(GroupLink(gs, j));
    }
    HeatedAscending(gs, k);
  }

  lemma HeatedAscending<K>(gs: seq<FreqNode<K>>, k: nat)
    requires k < |gs| && (forall i, j :: 0 <= i < j < |gs| && i != k && j != k ==> gs[i].freq < gs[j].freq)
    requires forall i :: 0 <= i < k ==> gs[i].freq < gs[k].freq
    requires k + 1 < |gs| ==> gs[k].freq < gs[k + 1].freq
    ensures Ascending(gs)
  {
    assert forall j :: k + 1 < j < |gs| ==> gs[k + 1].freq < gs[j].freq;
  }

  /** Links of nodes do not concern the rows. */
  method LinkApart<K>(head: FreqNode<K>, p: FreqNode<K>, n: FreqNode<K>, ghost gs: seq<FreqNode<K>>,
      ghost rs: seq<seq<Entry<K>>>, ghost x: int, ghost now: nat, ghost k: nat)
    requires Listed(head, gs) && KeptAll(gs, rs, x, now) && k < |gs| && p == gs[k] && n !in gs
    requires n.freq == p.freq + 1 && (k + 1 < |gs| ==> gs[k + 1].freq > n.freq)
    modifies n`hotter, n`colder, Members(gs)`hotter, Members(gs)`colder
    ensures Listed(head, WithAt(gs, k + 1, n)) && KeptAll(gs, rs, x, now)
  {
    LinkBehind(head, p, n, gs, k);
    forall j | 0 <= j < |gs| ensures Kept(gs[j], rs[j], now, Surplus(j, x)) {
      assert old(Kept(gs[j], rs[j], now, Surplus(j, x)));
      forall i | 0 <= i < |rs[j]| ensures Link(gs[j], rs[j], i) {
        assert old(Link(gs[j], rs[j], i));
      }
    }
  }

  method PushBehindIn<K>(head: FreqNode<K>, p: FreqNode<K>, n: FreqNode<K>, ghost gs: seq<FreqNode<K>>,
      ghost rs: seq<seq<Entry<K>>>, ghost x: int, ghost now: nat, ghost k: nat)
    requires Listed(head, gs) && KeptAll(gs, rs, x, now) && k < |gs| && p == gs[k] && x <= k && n !in gs && Blank(n)
    requires n.freq == p.freq + 1 && (k + 1 < |gs| ==> gs[k + 1].freq > n.freq)
    modifies n`hotter, n`colder, Members(gs)`hotter, Members(gs)`colder
    ensures Listed(head, WithAt(gs, k + 1, n)) && KeptAll(WithAt(gs, k + 1, n), WithAt(rs, k + 1, []), x, now)
  {
    LinkApart(head, p, n, gs, rs, x, now, k);
    KeptWith(gs, rs, x, now, k + 1, n);
  }

  method RemoveIn<K>(head: FreqNode<K>, p: FreqNode<K>, ghost gs: seq<FreqNode<K>>, ghost rs: seq<seq<Entry<K>>>,
      ghost now: nat, ghost k: nat) returns (head': FreqNode?<K>)
    requires Listed(head, gs) && KeptBut(gs, rs, k, now) && k < |gs| && p == gs[k]
    modifies Members(gs)`hotter, Members(gs)`colder
    ensures Listed(head', Without(gs, k)) && KeptAll(Without(gs, k), Without(rs, k), -1, now)
  {
    head' := Remove(head, p, gs, k);
    forall j | 0 <= j < |gs| && j != k ensures Kept(gs[j], rs[j], now, 0) {
      assert old(Kept(gs[j], rs[j], now, 0));
      forall i | 0 <= i < |rs[j]| ensures Link(gs[j], rs[j], i) {
        assert old(Link(gs[j], rs[j], i));
      }
    }
    KeptWithout(gs, rs, now, k);
    AscendingWithout(gs, k);
  }
}

/** LRLFUCacheContainer: evicts the least frequently touched entry, and of these the least recently touched one. */
module LfuCache {
  import opened Wrappers
  import opened LfuRows
  import opened LfuGroups
  import opened LfuState
  import opened LfuSteps

  ghost predicate NoneEmpty<K>(rs: seq<seq<Entry<K>>>) {
    forall k :: 0 <= k < |rs| ==> rs[k] != []
  }

  ghost predicate In<K>(rs: seq<seq<Entry<K>>>, e: Entry<K>) {
    exists k :: 0 <= k < |rs| && e in rs[k]
  }

  /** A sound list with its rows. */
  ghost predicate Sound<K>(head: FreqNode?<K>, gs: seq<FreqNode<K>>, rs: seq<seq<Entry<K>>>, now: nat)
    reads Objects(gs, rs)
  {
    Listed(head, gs) && KeptAll(gs, rs, -1, now) && NoneEmpty(rs)
  }

  ghost function EntrySet<K>(rs: seq<seq<Entry<K>>>): set<Entry<K>> {
    set k, i | 0 <= k < |rs| && 0 <= i < |rs[k]| :: rs[k][i]
  }

  lemma RowIn<K>(rs: seq<seq<Entry<K>>>, k: nat)
    requires k < |rs|
    ensures Members(rs[k]) <= EntrySet(rs)
  {
  }

  method EvictFrom<K>(head: FreqNode<K>, ghost gs: seq<FreqNode<K>>, ghost rs: seq<seq<Entry<K>>>, ghost now: nat)
    returns (key: K, head': FreqNode?<K>, ghost gs': seq<FreqNode<K>>, ghost rs': seq<seq<Entry<K>>>)
    requires Sound(head, gs, rs, now)
    modifies Members(gs)`oldest, Members(gs)`count, Members(gs)`hotter, Members(gs)`colder
    modifies EntrySet(rs)`older
    ensures Sound(head', gs', rs', now)
    ensures gs != [] && |rs| == |gs| && rs[0] != [] && key == rs[0][0].key
    ensures if |rs[0]| > 1 then gs' == gs && rs' == rs[0 := rs[0][1..]]
      else gs' == Without(gs, 0) && rs' == Without(rs, 0)
  {
    RowIn(rs, 0);
    assert gs[0] in Members(gs);
    var some;
    key, some := EvictIn(head, gs, rs, now);
    if some {
      head', gs', rs' := head, gs, rs[0 := rs[0][1..]];
    } else {
      head' := RemoveIn(head, head, gs, rs, now, 0);
      gs', rs' := Without(gs, 0), Without(rs, 0);
    }
  }

  /** The node for entries touched once: the coldest one, or a new one before it. */
  method FirstNode<K>(head: FreqNode?<K>, ghost gs: seq<FreqNode<K>>, ghost rs: seq<seq<Entry<K>>>, ghost now: nat)
    returns (g: FreqNode<K>, ghost gs': seq<FreqNode<K>>, ghost rs': seq<seq<Entry<K>>>)
    requires Sound(head, gs, rs, now)
    modifies Members(gs)`colder
    ensures Listed(g, gs') && gs' != [] && g == gs'[0] && g.freq == 1 && KeptAll(gs', rs', -1, now)
    ensures if gs != [] && gs[0].freq == 1 then gs' == gs && rs' == rs
      else fresh(g) && gs' == WithAt(gs, 0, g) && rs' == WithAt(rs, 0, [])
  {
    if head == null || head.freq != 1 {
      g := NewNode(1, head, gs, rs, -1, now);
      PushFrontIn(head, g, gs, rs, now);
      gs', rs' := WithAt(gs, 0, g), WithAt(rs, 0, []);
    } else {
      g, gs', rs' := head, gs, rs;
    }
  }

  // ---- touching an entry ----

  /** The node of the next frequency behind the one at k; a new one if there is none. */
  method HotterNode<K>(head: FreqNode<K>, p: FreqNode<K>, ghost gs: seq<FreqNode<K>>, ghost rs: seq<seq<Entry<K>>>,
      ghost now: nat, ghost k: nat)
    returns (h: FreqNode<K>, ghost gs': seq<FreqNode<K>>, ghost found: bool)
    requires Listed(head, gs) && KeptAll(gs, rs, k, now) && k < |gs| && p == gs[k]
    modifies Members(gs)`hotter, Members(gs)`colder
    ensures found ==> k + 1 < |gs| == |rs| && gs' == gs
    ensures !found ==> fresh(h) && gs' == WithAt(gs, k + 1, h)
    ensures k < |rs| && Listed(head, gs') && KeptAll(gs', Widened(rs, k, found), k, now) && h == gs'[k + 1] &&
      h.freq == p.freq + 1
  {
    found := NextFound(head, gs, k);
    if p.hotter == null || p.hotter.freq != p.freq + 1 {
      h := PushHotter(head, p, gs, rs, now, k);
      gs' := WithAt(gs, k + 1, h);
    } else {
      h, gs' := p.hotter, gs;
    }
  }

  lemma NextFound<K>(head: FreqNode?<K>, gs: seq<FreqNode<K>>, k: nat) returns (found: bool)
    requires Listed(head, gs) && k < |gs|
    ensures found <==> gs[k].hotter != null && gs[k].hotter.freq == gs[k].freq + 1
    ensures k + 1 < |gs| ==> gs[k].hotter == gs[k + 1] && gs[k + 1].freq > gs[k].freq
    ensures k + 1 == |gs| ==> gs[k].hotter == null
  {
    assert GroupLink(gs, k);
    found := gs[k].hotter != null && gs[k].hotter.freq == gs[k].freq + 1;
  }

  method PushHotter<K>(head: FreqNode<K>, p: FreqNode<K>, ghost gs: seq<FreqNode<K>>, ghost rs: seq<seq<Entry<K>>>,
      ghost now: nat, ghost k: nat) returns (h: FreqNode<K>)
    requires Listed(head, gs) && KeptAll(gs, rs, k, now) && k < |gs| && p == gs[k]
    requires k + 1 < |gs| ==> gs[k + 1].freq > p.freq + 1
    modifies Members(gs)`hotter, Members(gs)`colder
    ensures fresh(h) && h.freq == p.freq + 1 && |rs| == |gs|
    ensures Listed(head, WithAt(gs, k + 1, h)) && KeptAll(WithAt(gs, k + 1, h), WithAt(rs, k + 1, []), k, now)
  {
    h := NewNode(p.freq + 1, head, gs, rs, k, now);
    PushBehindIn(head, p, h, gs, rs, k, now, k);
  }

  /** The rows with one for the next frequency behind row k. */
  ghost function Widened<K>(rs: seq<seq<Entry<K>>>, k: nat, found: bool): seq<seq<Entry<K>>>
    requires k < |rs|
  {
    if found then rs else WithAt(rs, k + 1, [])
  }

  /** A node that an entry has left: it goes when it is empty, and counts one less otherwise. */
  method Settle<K>(head: FreqNode<K>, p: FreqNode<K>, ghost gs: seq<FreqNode<K>>, ghost rs: seq<seq<Entry<K>>>,
      ghost now: nat, ghost k: nat)
    returns (head': FreqNode?<K>, ghost gs': seq<FreqNode<K>>, ghost rs': seq<seq<Entry<K>>>)
    requires Listed(head, gs) && KeptAll(gs, rs, k, now) && k < |gs| && p == gs[k]
    requires forall j :: 0 <= j < |rs| && j != k ==> rs[j] != []
    modifies p`count, Members(gs)`hotter, Members(gs)`colder
    ensures Sound(head', gs', rs', now)
    ensures if rs[k] == [] then gs' == Without(gs, k) && rs' == Without(rs, k) else gs' == gs && rs' == rs
  {
    assert Kept(gs[k], rs[k], now, 1);
    if p.newest == null {
      head' := RemoveIn(head, p, gs, rs, now, k);
      gs', rs' := Without(gs, k), Without(rs, k);
    } else {
      Recount(p, head, gs, rs, now, k);
      head', gs', rs' := head, gs, rs;
    }
  }

  // ---- which entries there are ----

  lemma {:induction false} InReplaced<K>(rs: seq<seq<Entry<K>>>, k: nat, row: seq<Entry<K>>, x: Entry<K>)
    requires k < |rs|
    ensures In(rs[k := row], x) <==> x in row || exists j :: 0 <= j < |rs| && j != k && x in rs[j]
  {
    var rs' := rs[k := row];
    if In(rs', x) {
      var j :| 0 <= j < |rs'| && x in rs'[j];
      assert j != k ==> x in rs[j];
    }
    if x in row {
      assert x in rs'[k];
    }
    if j :| 0 <= j < |rs| && j != k && x in rs[j] {
      assert x in rs'[j];
    }
  }

  lemma InWith<K>(rs: seq<seq<Entry<K>>>, k: nat, x: Entry<K>)
    requires k <= |rs|
    ensures In(WithAt(rs, k, []), x) <==> In(rs, x)
  {
    var rs' := WithAt(rs, k, []);
    if In(rs', x) {
      var j :| 0 <= j < |rs'| && x in rs'[j];
      assert j < k ==> rs'[j] == rs[j];
      assert j > k ==> rs'[j] == rs[j - 1];
    }
    if In(rs, x) {
      var j :| 0 <= j < |rs| && x in rs[j];
      assert rs'[if j < k then j else j + 1] == rs[j];
    }
  }

  lemma SetWithout<K>(rs: seq<seq<Entry<K>>>, k: nat)
    requires k < |rs| && rs[k] == []
    ensures EntrySet(Without(rs, k)) == EntrySet(rs)
  {
    forall x: Entry<K> ensures x in EntrySet(Without(rs, k)) <==> x in EntrySet(rs) {
      InWithout(rs, k, x);
      SetIn(rs, x);
      SetIn(Without(rs, k), x);
    }
  }

  lemma SetIn<K>(rs: seq<seq<Entry<K>>>, x: Entry<K>)
    ensures x in EntrySet(rs) <==> In(rs, x)
  {
    if k :| 0 <= k < |rs| && x in rs[k] {
      var i :| 0 <= i < |rs[k]| && rs[k][i] == x;
    }
  }

  lemma InWithout<K>(rs: seq<seq<Entry<K>>>, k: nat, x: Entry<K>)
    requires k < |rs| && rs[k] == []
    ensures In(Without(rs, k), x) <==> In(rs, x)
  {
    var rs' := Without(rs, k);
    if In(rs', x) {
      var j :| 0 <= j < |rs'| && x in rs'[j];
      assert rs'[j] == rs[if j < k then j else j + 1];
    }
    if In(rs, x) {
      var j :| 0 <= j < |rs| && x in rs[j];
      assert rs'[if j < k then j else j - 1] == rs[j];
    }
  }

  /** Taking the entry at i out of row k takes out just that entry. */
  lemma InUnlinked<K>(rs: seq<seq<Entry<K>>>, k: nat, i: nat, x: Entry<K>)
    requires k < |rs| && i < |rs[k]| && Distinct(rs[k])
    requires forall j :: 0 <= j < |rs| && j != k ==> rs[k][i] !in rs[j]
    ensures In(rs[k := Without(rs[k], i)], x) <==> In(rs, x) && x != rs[k][i]
  {
    var row := rs[k];
    InReplaced(rs, k, Without(row, i), x);
    InReplaced(rs, k, row, x);
    assert rs[k := row] == rs;
    assert x in Without(row, i) ==> x in row;
    if x in row && x != row[i] {
      var j :| 0 <= j < |row| && row[j] == x;
      assert Without(row, i)[if j < i then j else j - 1] == x;
    }
    assert row[i] !in Without(row, i);
  }

  // ---- _replace ----

  /** The rows with the entry out of its own, and a row for the next frequency behind that. */
  ghost function Opened<K>(rs: seq<seq<Entry<K>>>, k: nat, i: nat, found: bool): (r: seq<seq<Entry<K>>>)
    requires k < |rs| && i < |rs[k]| && (found ==> k + 1 < |rs|)
    ensures k + 1 < |r|
  {
    Widened(rs[k := Without(rs[k], i)], k, found)
  }

  lemma OpenedSet<K>(rs: seq<seq<Entry<K>>>, k: nat, i: nat, found: bool)
    requires k < |rs| && i < |rs[k]| && (found ==> k + 1 < |rs|) && Distinct(rs[k])
    requires forall j :: 0 <= j < |rs| && j != k ==> rs[k][i] !in rs[j]
    ensures EntrySet(Opened(rs, k, i, found)) == EntrySet(rs) - {rs[k][i]}
  {
    var rs1, r := rs[k := Without(rs[k], i)], Opened(rs, k, i, found);
    forall x: Entry<K> ensures x in EntrySet(r) <==> x in EntrySet(rs) && x != rs[k][i] {
      InUnlinked(rs, k, i, x);
      InWith(rs1, k + 1, x);
      SetIn(r, x);
      SetIn(rs, x);
    }
  }

  lemma OpenedRows<K>(rs: seq<seq<Entry<K>>>, k: nat, i: nat, found: bool)
    requires k < |rs| && i < |rs[k]| && (found ==> k + 1 < |rs|) && NoneEmpty(rs)
    ensures var r := Opened(rs, k, i, found);
      forall j :: 0 <= j < |r| && j != k && j != k + 1 ==> r[j] != []
  {
    var rs1, r := rs[k := Without(rs[k], i)], Opened(rs, k, i, found);
    assert forall j :: 0 <= j < |rs1| && j != k ==> rs1[j] == rs[j] != [];
    assert !found ==> forall j :: 0 <= j < |r| && j != k + 1 ==> r[j] == rs1[if j <= k then j else j - 1];
  }

  /** The entry joins the row of the next frequency. */
  lemma JoinedRows<K>(r: seq<seq<Entry<K>>>, k: nat, e: Entry<K>)
    requires k + 1 < |r| && forall j :: 0 <= j < |r| && j != k && j != k + 1 ==> r[j] != []
    ensures var r' := r[k + 1 := r[k + 1] + [e]];
      && EntrySet(r') == EntrySet(r) + {e}
      && (forall j :: 0 <= j < |r'| && j != k ==> r'[j] != [])
  {
    SetAppended(r, k + 1, e);
  }

  lemma MembersWith<T>(s: seq<T>, k: nat, x: T)
    requires k <= |s|
    ensures Members(WithAt(s, k, x)) == Members(s) + {x}
  {
    var r := WithAt(s, k, x);
    assert r[k] == x;
    forall y | y in Members(s) ensures y in Members(r) {
      var j :| 0 <= j < |s| && s[j] == y;
      assert r[if j < k then j else j + 1] == y;
    }
  }

  lemma MembersWithout<T>(s: seq<T>, k: nat)
    requires k < |s|
    ensures Members(Without(s, k)) <= Members(s)
  {
  }

  lemma OpenMembers<T>(s: seq<T>, s': seq<T>, k: nat, x: T)
    requires k < |s| && (s' == s || s' == WithAt(s, k + 1, x))
    ensures Members(s') <= Members(s) + {x}
  {
    MembersWith(s, k + 1, x);
  }

  /** Puts the entry into the row of the hotter node, and tidies up the one it left. */
  method JoinHotter<K>(head: FreqNode<K>, p: FreqNode<K>, h: FreqNode<K>, e: Entry<K>, ghost gs: seq<FreqNode<K>>,
      ghost rs: seq<seq<Entry<K>>>, ghost now: nat, ghost k: nat)
    returns (head': FreqNode?<K>, ghost gs': seq<FreqNode<K>>, ghost rs': seq<seq<Entry<K>>>)
    requires k + 1 < |gs| == |rs| && Listed(head, gs) && KeptAll(gs, rs, k, now)
    requires p == gs[k] && h == gs[k + 1] && e !in EntrySet(rs)
    requires forall j :: 0 <= j < |rs| && j != k && j != k + 1 ==> rs[j] != []
    modifies Members(gs)`newest, Members(gs)`oldest, Members(gs)`count, Members(gs)`hotter, Members(gs)`colder,
      Members(rs[k + 1])`newer
    modifies e
    ensures Sound(head', gs', rs', now + 1) && e.hits == old(h.freq) && e.touched == now
    ensures EntrySet(rs') == EntrySet(rs) + {e} && Members(gs') <= Members(gs)
  {
    JoinedRows(rs, k, e);
    assert h in Members(gs) && p in Members(gs);
    SetIn(rs, e);
    InsertIn(head, h, e, gs, rs, k, now, k + 1);
    ghost var rs2 := rs[k + 1 := rs[k + 1] + [e]];
    head', gs', rs' := Settle(head, p, gs, rs2, now + 1, k);
    MembersWithout(gs, k);
    if rs2[k] == [] {
      SetWithout(rs2, k);
    }
  }

  /** Takes the entry out of its row and finds or makes the node of the next frequency. */
  method Detach<K>(head: FreqNode<K>, p: FreqNode<K>, e: Entry<K>, ghost gs: seq<FreqNode<K>>,
      ghost rs: seq<seq<Entry<K>>>, ghost now: nat, ghost k: nat, ghost i: nat)
    returns (h: FreqNode<K>, ghost gs': seq<FreqNode<K>>, ghost found: bool)
    requires Sound(head, gs, rs, now) && k < |gs| && |rs| == |gs| && p == gs[k] && i < |rs[k]| && e == rs[k][i]
    modifies Members(gs)`newest, Members(gs)`oldest, Members(gs)`hotter, Members(gs)`colder
    modifies EntrySet(rs)`newer, EntrySet(rs)`older
    ensures found ==> k + 1 < |rs| && gs' == gs
    ensures !found ==> fresh(h) && gs' == WithAt(gs, k + 1, h)
    ensures Listed(head, gs') && KeptAll(gs', Opened(rs, k, i, found), k, now) && h == gs'[k + 1] &&
      h.freq == p.freq + 1
  {
    RowIn(rs, k);
    UnlinkIn(head, p, e, gs, rs, now, k, i);
    h, gs', found := HotterNode(head, p, gs, rs[k := Without(rs[k], i)], now, k);
  }

  /** The entry at i of row k is nowhere else. */
  ghost predicate Once<K>(rs: seq<seq<Entry<K>>>, k: nat, i: nat) {
    && k < |rs| && i < |rs[k]| && Distinct(rs[k]) && NoneEmpty(rs)
    && forall j :: 0 <= j < |rs| && j != k ==> rs[k][i] !in rs[j]
  }

  lemma OnlyOnce<K>(gs: seq<FreqNode<K>>, rs: seq<seq<Entry<K>>>, now: nat, k: nat, i: nat)
    requires Distinct(gs) && KeptAll(gs, rs, -1, now) && NoneEmpty(rs) && k < |rs| && i < |rs[k]|
    ensures Once(rs, k, i)
  {
    assert Kept(gs[k], rs[k], now, 0);
    forall j | 0 <= j < |rs| && j != k ensures rs[k][i] !in rs[j] {
      assert Kept(gs[j], rs[j], now, 0);
      Apart(gs[k], rs[k], gs[j], rs[j]);
    }
  }

  /** What the rows are once the entry is out. */
  ghost predicate ReadyToJoin<K>(rs: seq<seq<Entry<K>>>, rs': seq<seq<Entry<K>>>, e: Entry<K>, k: nat) {
    && k + 1 < |rs'| && EntrySet(rs') == EntrySet(rs) - {e} && Members(rs'[k + 1]) <= EntrySet(rs)
    && forall j :: 0 <= j < |rs'| && j != k && j != k + 1 ==> rs'[j] != []
  }

  lemma OpenedFor<K>(rs: seq<seq<Entry<K>>>, k: nat, i: nat, found: bool)
    requires Once(rs, k, i) && (found ==> k + 1 < |rs|)
    ensures ReadyToJoin(rs, Opened(rs, k, i, found), rs[k][i], k)
  {
    OpenedSet(rs, k, i, found);
    OpenedRows(rs, k, i, found);
    RowIn(Opened(rs, k, i, found), k + 1);
  }

  method DetachEntry<K>(head: FreqNode<K>, p: FreqNode<K>, e: Entry<K>, ghost gs: seq<FreqNode<K>>,
      ghost rs: seq<seq<Entry<K>>>, ghost now: nat, ghost k: nat, ghost i: nat)
    returns (h: FreqNode<K>, ghost gs': seq<FreqNode<K>>, ghost rs': seq<seq<Entry<K>>>)
    requires Sound(head, gs, rs, now) && k < |gs| && |rs| == |gs| && p == gs[k] && i < |rs[k]| && e == rs[k][i]
    modifies Members(gs)`newest, Members(gs)`oldest, Members(gs)`hotter, Members(gs)`colder
    modifies EntrySet(rs)`newer, EntrySet(rs)`older
    ensures Listed(head, gs') && KeptAll(gs', rs', k, now) && ReadyToJoin(rs, rs', e, k)
    ensures k + 1 < |gs'| && p == gs'[k] && h == gs'[k + 1] && h.freq == p.freq + 1
    ensures (h in gs || fresh(h)) && Members(gs') <= Members(gs) + {h}
  {
    OnlyOnce(gs, rs, now, k, i);
    ghost var found;
    h, gs', found := Detach(head, p, e, gs, rs, now, k, i);
    rs' := Opened(rs, k, i, found);
    OpenMembers(gs, gs', k, h);
    OpenedFor(rs, k, i, found);
  }

  /** The entry moves to the next frequency, as its newest; h is the node it moves to. */
  method Promote<K>(head: FreqNode<K>, p: FreqNode<K>, e: Entry<K>, ghost gs: seq<FreqNode<K>>,
      ghost rs: seq<seq<Entry<K>>>, ghost now: nat, ghost k: nat, ghost i: nat)
    returns (head': FreqNode?<K>, ghost gs': seq<FreqNode<K>>, ghost rs': seq<seq<Entry<K>>>, h: FreqNode<K>)
    requires Sound(head, gs, rs, now) && k < |gs| && |rs| == |gs| && p == gs[k] && i < |rs[k]| && e == rs[k][i]
    modifies Members(gs)`newest, Members(gs)`oldest, Members(gs)`count, Members(gs)`hotter, Members(gs)`colder
    modifies EntrySet(rs)`newer, EntrySet(rs)`older, e
    ensures Sound(head', gs', rs', now + 1) && e.hits == old(p.freq) + 1 && e.touched == now
    ensures EntrySet(rs') == EntrySet(rs)
    ensures (h in gs || fresh(h)) && Members(gs') <= Members(gs) + {h}
  {
    ghost var gs2, rs2;
    h, gs2, rs2 := DetachEntry(head, p, e, gs, rs, now, k, i);
    head', gs', rs' := JoinHotter(head, p, h, e, gs2, rs2, now, k);
    Rejoined(EntrySet(rs), EntrySet(rs2), EntrySet(rs'), e, rs, k, i);
  }

  lemma Rejoined<K>(a: set<Entry<K>>, b: set<Entry<K>>, c: set<Entry<K>>, e: Entry<K>, rs: seq<seq<Entry<K>>>, k: nat,
      i: nat)
    requires a == EntrySet(rs) && k < |rs| && i < |rs[k]| && e == rs[k][i] && b == a - {e} && c == b + {e}
    ensures c == a
  {
    assert e in a;
  }

  /** _replace: the entry is touched once more. */
  method Touch<K>(head: FreqNode<K>, e: Entry<K>, ghost gs: seq<FreqNode<K>>, ghost rs: seq<seq<Entry<K>>>,
      ghost now: nat, ghost k: nat, ghost i: nat)
    returns (head': FreqNode?<K>, ghost gs': seq<FreqNode<K>>, ghost rs': seq<seq<Entry<K>>>)
    requires Sound(head, gs, rs, now) && k < |gs| && |rs| == |gs| && i < |rs[k]| && e == rs[k][i]
    modifies Members(gs)`freq, Members(gs)`newest, Members(gs)`oldest, Members(gs)`count, Members(gs)`hotter,
      Members(gs)`colder
    modifies EntrySet(rs)`newer, EntrySet(rs)`older, e
    ensures Sound(head', gs', rs', now + 1) && e.hits == old(e.hits) + 1 && e.touched == now
    ensures EntrySet(rs') == EntrySet(rs)
    ensures fresh(Members(gs') - Members(gs))
  {
    assert Kept(gs[k], rs[k], now, 0) && Link(gs[k], rs[k], i);
    var p := e.parent;
    assert p in Members(gs);
    ghost var found := NextFound(head, gs, k);
    if p.count == 1 && (p.hotter == null || p.hotter.freq != p.freq + 1) {
      assert rs[k] == [e];
      HeatIn(head, p, e, gs, rs, now, k);
      head', gs', rs' := head, gs, rs;
    } else {
      ghost var h;
      head', gs', rs', h := Promote(head, p, e, gs, rs, now, k, i);
      assert Members(gs') - Members(gs) <= {h};
    }
  }

  /** _firstInsert: a new entry, touched once. */
  method Add<K>(head: FreqNode?<K>, key: K, ghost gs: seq<FreqNode<K>>, ghost rs: seq<seq<Entry<K>>>, ghost now: nat)
    returns (e: Entry<K>, head': FreqNode<K>, ghost gs': seq<FreqNode<K>>, ghost rs': seq<seq<Entry<K>>>)
    requires Sound(head, gs, rs, now)
    modifies Members(gs)`newest, Members(gs)`oldest, Members(gs)`count, Members(gs)`hotter, Members(gs)`colder
    modifies EntrySet(rs)`newer
    ensures Sound(head', gs', rs', now + 1)
    ensures fresh(e) && e.key == key && e.hits == 1 && e.touched == now
    ensures EntrySet(rs') == EntrySet(rs) + {e} && fresh(Members(gs') - Members(gs))
  {
    e := NewEntry(key, head, gs, rs, now);
    ghost var rs1;
    head', gs', rs1 := FirstNode(head, gs, rs, now);
    FirstRows(gs, rs, gs', rs1, head', e);
    InsertIn(head', head', e, gs', rs1, -1, now, 0);
    assert Members(gs') - Members(gs) <= {head'};
    rs' := rs1[0 := rs1[0] + [e]];
  }

  method NewEntry<K>(key: K, ghost head: FreqNode?<K>, ghost gs: seq<FreqNode<K>>, ghost rs: seq<seq<Entry<K>>>,
      ghost now: nat) returns (e: Entry<K>)
    requires Sound(head, gs, rs, now)
    ensures Sound(head, gs, rs, now) && fresh(e) && e !in EntrySet(rs) && e.key == key
  {
    e := new Entry(key, now);
    forall j | 0 <= j < |gs| ensures GroupLink(gs, j) {
      assert old(GroupLink(gs, j));
    }
    forall j | 0 <= j < |gs| ensures Kept(gs[j], rs[j], now, 0) {
      assert old(Kept(gs[j], rs[j], now, 0));
    }
  }

  /** The rows with the one that the new entry joins. */
  lemma FirstRows<K>(gs: seq<FreqNode<K>>, rs: seq<seq<Entry<K>>>, gs': seq<FreqNode<K>>, rs': seq<seq<Entry<K>>>,
      g: FreqNode<K>, e: Entry<K>)
    requires |gs| == |rs| && NoneEmpty(rs) && e !in EntrySet(rs)
    requires (gs != [] && gs' == gs && rs' == rs) || (gs' == WithAt(gs, 0, g) && rs' == WithAt(rs, 0, []))
    ensures rs' != [] && EntrySet(rs') == EntrySet(rs) && (forall j :: 0 <= j < |rs'| ==> e !in rs'[j])
    ensures NoneEmpty(rs'[0 := rs'[0] + [e]]) && EntrySet(rs'[0 := rs'[0] + [e]]) == EntrySet(rs) + {e}
    ensures Members(gs') <= Members(gs) + {g} && Members(rs'[0]) <= EntrySet(rs)
  {
    assert EntrySet(rs') == EntrySet(rs) by {
      if rs' != rs {
        forall x: Entry<K> ensures x in EntrySet(rs') <==> x in EntrySet(rs) {
          InWith(rs, 0, x);
          SetIn(rs, x);
          SetIn(rs', x);
        }
      }
    }
    SetIn(rs', e);
    RowIn(rs', 0);
    MembersWith(gs, 0, g);
    SetAppended(rs', 0, e);
    assert forall j :: 1 <= j < |rs'| ==> rs'[j] != [] by {
      assert rs' != rs ==> forall j :: 1 <= j < |rs'| ==> rs'[j] == rs[j - 1];
    }
  }

  lemma SetAppended<K>(rs: seq<seq<Entry<K>>>, k: nat, e: Entry<K>)
    requires k < |rs|
    ensures EntrySet(rs[k := rs[k] + [e]]) == EntrySet(rs) + {e}
  {
    var row := rs[k];
    forall x: Entry<K> ensures x in EntrySet(rs[k := row + [e]]) <==> x in EntrySet(rs) || x == e {
      InReplaced(rs, k, row + [e], x);
      InReplaced(rs, k, row, x);
      assert rs[k := row] == rs;
      SetIn(rs, x);
      SetIn(rs[k := row + [e]], x);
    }
  }

  lemma EvictedSet<K>(gs: seq<FreqNode<K>>, rs: seq<seq<Entry<K>>>, gs': seq<FreqNode<K>>, rs': seq<seq<Entry<K>>>)
    requires Once(rs, 0, 0) && |gs| == |rs|
    requires if |rs[0]| > 1 then gs' == gs && rs' == rs[0 := rs[0][1..]]
      else gs' == Without(gs, 0) && rs' == Without(rs, 0)
    ensures EntrySet(rs') == EntrySet(rs) - {rs[0][0]} && Members(gs') <= Members(gs)
  {
    var rs1 := rs[0 := Without(rs[0], 0)];
    forall x: Entry<K> ensures x in EntrySet(rs1) <==> x in EntrySet(rs) && x != rs[0][0] {
      InUnlinked(rs, 0, 0, x);
      SetIn(rs1, x);
      SetIn(rs, x);
    }
    assert Without(rs[0], 0) == rs[0][1..];
    if |rs[0]| == 1 {
      assert rs' == Without(rs1, 0);
      SetWithout(rs1, 0);
    }
    MembersWithout(gs, 0);
  }

  ghost predicate Among<K>(gs: seq<FreqNode<K>>, nodes: set<FreqNode<K>>) {
    forall k :: 0 <= k < |gs| ==> gs[k] in nodes
  }

  /** Every row is in order; in this form the solver looks at a row only when it is named. */
  ghost predicate RowsKept<K>(gs: seq<FreqNode<K>>, rs: seq<seq<Entry<K>>>, now: nat)
    reads Objects(gs, rs)
  {
    && |gs| == |rs|
    && forall k {:trigger Kept(gs[k], rs[k], now, 0)} :: 0 <= k < |gs| ==> Kept(gs[k], rs[k], now, 0)
  }

  lemma RowByRow<K>(gs: seq<FreqNode<K>>, rs: seq<seq<Entry<K>>>, now: nat)
    requires RowsKept(gs, rs, now)
    ensures KeptAll(gs, rs, -1, now)
  {
    forall k | 0 <= k < |gs| ensures Kept(gs[k], rs[k], now, 0) {
    }
  }

  class Container<K> {
    var head: FreqNode?<K>
    ghost var groups: seq<FreqNode<K>>
    ghost var rows: seq<seq<Entry<K>>>
    /** All nodes that have been in the list. */
    ghost var nodes: set<FreqNode<K>>
    ghost var entries: set<Entry<K>>
    ghost var now: nat

    /** Links agree, frequencies ascend strictly, and every node has entries and counts them. */
    ghost predicate Valid()
      reads this, Objects(groups, rows)
    {
      && Listed(head, groups) && RowsKept(groups, rows, now) && NoneEmpty(rows)
      && Among(groups, nodes) && entries == EntrySet(rows)
    }

    lemma IsSound()
      requires Valid()
      ensures Sound(head, groups, rows, now)
    {
      RowByRow(groups, rows, now);
    }

    constructor ()
      ensures Valid() && nodes == {} && entries == {} && now == 0
    {
      head, groups, rows, nodes, entries, now := null, [], [], {}, {}, 0;
    }

    method Assign(h: FreqNode?<K>, ghost gs: seq<FreqNode<K>>, ghost rs: seq<seq<Entry<K>>>,
        ghost ns: set<FreqNode<K>>, ghost n: nat)
      modifies this`head, this`groups, this`rows, this`nodes, this`entries, this`now
      ensures head == h && groups == gs && rows == rs && nodes == ns && entries == EntrySet(rs) && now == n
    {
      head, groups, rows, nodes, entries, now := h, gs, rs, ns, EntrySet(rs), n;
    }

    /** Takes over a list that is sound already. */
    method Adopt(h: FreqNode?<K>, ghost gs: seq<FreqNode<K>>, ghost rs: seq<seq<Entry<K>>>, ghost ns: set<FreqNode<K>>,
        ghost n: nat)
      requires Sound(h, gs, rs, n) && Among(gs, ns)
      modifies this`head, this`groups, this`rows, this`nodes, this`entries, this`now
      ensures Valid() && nodes == ns && entries == EntrySet(rs) && now == n
    {
      Assign(h, gs, rs, ns, n);
      forall j | 0 <= j < |gs| ensures GroupLink(gs, j) {
        assert old(GroupLink(gs, j));
      }
      forall j | 0 <= j < |gs| ensures Kept(gs[j], rs[j], n, 0) {
        assert old(Kept(gs[j], rs[j], n, 0));
        forall i | 0 <= i < |rs[j]| ensures Link(gs[j], rs[j], i) {
          assert old(Link(gs[j], rs[j], i));
        }
      }
    }

    /** Inserts an entry with frequency 1; no other changes its frequency or time. */
    method FirstInsert(key: K) returns (e: Entry<K>)
      requires Valid()
      modifies this`head, this`groups, this`rows, this`nodes, this`entries, this`now
      modifies nodes`newest, nodes`oldest, nodes`count, nodes`hotter, nodes`colder
      modifies entries`newer
      ensures Valid() && now == old(now) + 1
      ensures fresh(e) && e.key == key && e.hits == 1 && e.touched == old(now) && entries == old(entries) + {e}
      ensures old(nodes) <= nodes && fresh(nodes - old(nodes))
    {
      var h;
      ghost var gs, rs, was := [], [], entries;
      assert Members(groups) <= nodes;
      IsSound();
      e, h, gs, rs := AddNew(key);
      assert EntrySet(rs) == was + {e};
      Adopt(h, gs, rs, nodes + Members(gs), now + 1);
    }

    method AddNew(key: K)
        returns (e: Entry<K>, h: FreqNode<K>, ghost gs: seq<FreqNode<K>>, ghost rs: seq<seq<Entry<K>>>)
      requires Sound(head, groups, rows, now) && Among(groups, nodes) && entries == EntrySet(rows)
      modifies nodes`newest, nodes`oldest, nodes`count, nodes`hotter, nodes`colder
      modifies entries`newer
      ensures Sound(h, gs, rs, now + 1)
      ensures fresh(e) && e.key == key && e.hits == 1 && e.touched == now
      ensures EntrySet(rs) == entries + {e} && fresh(Members(gs) - Members(groups))
    {
      e, h, gs, rs := Add(head, key, groups, rows, now);
    }

    /** Counts a touch of the entry an iterator points to; no other changes its frequency or time. */
    method Replace(e: Entry<K>)
      requires Valid() && e in entries
      modifies this`head, this`groups, this`rows, this`nodes, this`entries, this`now
      modifies nodes`freq, nodes`newest, nodes`oldest, nodes`count, nodes`hotter, nodes`colder
      modifies entries`newer, entries`older, e
      ensures Valid() && now == old(now) + 1
      ensures e.hits == old(e.hits) + 1 && e.touched == old(now) && entries == old(entries)
      ensures old(nodes) <= nodes && fresh(nodes - old(nodes))
    {
      ghost var k, i := Place(e);
      assert Members(groups) <= nodes;
      IsSound();
      var h, gs, rs := TouchAt(e, k, i);
      Adopt(h, gs, rs, nodes + Members(gs), now + 1);
    }

    method TouchAt(e: Entry<K>, ghost k: nat, ghost i: nat)
        returns (h: FreqNode?<K>, ghost gs: seq<FreqNode<K>>, ghost rs: seq<seq<Entry<K>>>)
      requires Sound(head, groups, rows, now) && Among(groups, nodes) && entries == EntrySet(rows)
      requires k < |groups| == |rows| && i < |rows[k]| && rows[k][i] == e && head != null
      modifies nodes`freq, nodes`newest, nodes`oldest, nodes`count, nodes`hotter, nodes`colder
      modifies entries`newer, entries`older, e
      ensures Sound(h, gs, rs, now + 1) && e.hits == old(e.hits) + 1 && e.touched == now
      ensures EntrySet(rs) == entries && fresh(Members(gs) - Members(groups))
    {
      h, gs, rs := Touch(head, e, groups, rows, now, k, i);
    }

    lemma Place(e: Entry<K>) returns (k: nat, i: nat)
      requires Valid() && e in entries
      ensures k < |groups| == |rows| && i < |rows[k]| && rows[k][i] == e && head != null
    {
      k, i :| 0 <= k < |rows| && 0 <= i < |rows[k]| && rows[k][i] == e;
    }

    /** The entry touched least often, and of these the one touched longest ago, goes. */
    method Evict() returns (key: Option<K>, ghost e: Entry?<K>)
      requires Valid()
      modifies this`head, this`groups, this`rows, this`nodes, this`entries, this`now
      modifies nodes`oldest, nodes`count, nodes`hotter, nodes`colder
      modifies entries`older
      ensures Valid() && now == old(now) && nodes == old(nodes)
      ensures key == None <==> old(entries) == {}
      ensures key == None ==> entries == {}
      ensures key.Some? ==> e != null && e in old(entries) && key.value == e.key && entries == old(entries) - {e}
      ensures key.Some? ==> forall x :: x in old(entries) ==> old(NotAfter(e, x))
    {
      if head == null {
        return None, null;
      }
      var k;
      e := Oldest();
      k := EvictHead(e);
      key := Some(k);
    }

    method EvictHead(ghost e: Entry<K>) returns (key: K)
      requires Valid() && head != null && rows != [] && rows[0] != [] && e == rows[0][0]
      modifies this`head, this`groups, this`rows, this`nodes, this`entries, this`now
      modifies nodes`oldest, nodes`count, nodes`hotter, nodes`colder
      modifies entries`older
      ensures Valid() && now == old(now) && nodes == old(nodes)
      ensures key == e.key && entries == old(entries) - {e}
    {
      IsSound();
      OnlyOnce(groups, rows, now, 0, 0);
      var h;
      ghost var gs, rs;
      key, h, gs, rs := EvictFrom(head, groups, rows, now);
      EvictedSet(groups, rows, gs, rs);
      Adopt(h, gs, rs, nodes, now);
    }

    lemma Oldest() returns (e: Entry<K>)
      requires Valid() && head != null
      ensures rows != [] && rows[0] != [] && e == rows[0][0] && e in entries && forall x :: x in entries ==>
        NotAfter(e, x)
    {
      e := rows[0][0];
      forall x | x in entries ensures NotAfter(e, x) {
        FirstIsLeast(x);
      }
    }

    /** The first entry of the coldest node is the one to evict. */
    lemma FirstIsLeast(e: Entry<K>)
      requires Valid() && e in entries
      ensures rows != [] && rows[0] != [] && NotAfter(rows[0][0], e)
    {
      var k, i :| 0 <= k < |rows| && 0 <= i < |rows[k]| && rows[k][i] == e;
      assert Kept(groups[0], rows[0], now, 0) && Kept(groups[k], rows[k], now, 0);
    }
  }
}
