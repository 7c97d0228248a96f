/** Entries of one frequency, doubly linked from the oldest to the newest. */
module LfuRows {

  class Entry<K> {
    const key: K
    var newer: Entry?<K>
    var older: Entry?<K>
    var parent: FreqNode?<K>
    ghost var hits: nat
    ghost var touched: nat

    constructor (key: K, ghost now: nat)
      ensures this.key == key && newer == null && older == null && parent == null && hits == 1 && touched == now
    {
      this.key, newer, older, parent, hits, touched := key, null, null, null, 1, now;
    }
  }

  class FreqNode<K> {
    var freq: nat
    var count: int
    var newest: Entry?<K>
    var oldest: Entry?<K>
    var hotter: FreqNode?<K>
    var colder: FreqNode?<K>

    constructor (freq: nat)
      ensures this.freq == freq && count == 0 && newest == null && oldest == null && hotter == null && colder == null
    {
      this.freq, count, newest, oldest, hotter, colder := freq, 0, null, null, null, null;
    }
  }

  ghost predicate Distinct<T>(s: seq<T>) {
    forall i, j :: 0 <= i < j < |s| ==> s[i] != s[j]
  }

  ghost function Members<T>(s: seq<T>): set<T> {
    set i | 0 <= i < |s| :: s[i]
  }

  /** The links of entry i agree with its place in the row, forwards, backwards and upwards. */
  ghost predicate Link<K>(g: FreqNode<K>, row: seq<Entry<K>>, i: nat)
    requires i < |row|
    reads row[i]
  {
    row[i].newer == EntryAt(row, i + 1) && row[i].older == EntryAt(row, i - 1) && row[i].parent == g
  }

  ghost predicate Row<K>(g: FreqNode<K>, row: seq<Entry<K>>)
    reads g, Members(row)
  {
    && Distinct(row)
    && g.oldest == EntryAt(row, 0) && g.newest == EntryAt(row, |row| - 1)
    && forall i :: 0 <= i < |row| ==> Link(g, row, i)
  }

  ghost function EntryAt<K>(row: seq<Entry<K>>, i: int): Entry?<K> {
    if 0 <= i < |row| then row[i] else null
  }

  ghost function Without<T>(s: seq<T>, i: nat): seq<T>
    requires i < |s|
  {
    s[..i] + s[i + 1..]
  }

  /** freq_node::insert: the entry becomes the newest. */
  method Insert<K>(g: FreqNode<K>, e: Entry<K>, ghost row: seq<Entry<K>>)
    requires Row(g, row) && e !in row
    modifies g`newest, g`oldest, g`count, e`newer, e`older, e`parent, Members(row)`newer
    ensures Row(g, row + [e]) && g.count == old(g.count) + 1
  {
    ghost var row' := row + [e];
    e.newer := null;
    e.older := g.newest;
    if g.oldest == null {
      g.oldest := e;
    }
    if g.newest != null {
      assert g.newest == row[|row| - 1];
      g.newest.newer := e;
    }
    g.newest := e;
    g.count := g.count + 1;
    e.parent := g;
    forall i | 0 <= i < |row'| ensures Link(g, row', i) {
      assert i < |row| ==> row'[i] == row[i] && row[i] != e && old(Link(g, row, i));
    }
  }

  /** The links of entry k when entry i is passed over. */
  ghost predicate LinkPast<K>(g: FreqNode<K>, row: seq<Entry<K>>, i: nat, k: nat)
    requires i < |row| && k < |row|
    reads row[k]
  {
    && row[k].newer == EntryAt(row, if k + 1 == i then i + 1 else k + 1)
    && row[k].older == EntryAt(row, if k - 1 == i then i - 1 else k - 1)
    && row[k].parent == g
  }

  ghost predicate Bypassed<K>(g: FreqNode<K>, row: seq<Entry<K>>, i: nat)
    requires i < |row|
    reads g, Members(row)
  {
    && g.oldest == EntryAt(row, if i == 0 then 1 else 0)
    && g.newest == EntryAt(row, if i == |row| - 1 then i - 1 else |row| - 1)
    && forall k :: 0 <= k < |row| && k != i ==> LinkPast(g, row, i, k)
  }

  method Bypass<K>(g: FreqNode<K>, e: Entry<K>, ghost row: seq<Entry<K>>, ghost i: nat)
    requires Row(g, row) && i < |row| && e == row[i]
    modifies g`newest, g`oldest, Members(row)`newer, Members(row)`older
    ensures Bypassed(g, row, i)
  {
    assert Link(g, row, i);
    if e.newer != null {
      assert e.newer == row[i + 1];
      e.newer.older := e.older;
    } else {
      g.newest := e.older;
    }
    if e.older != null {
      assert e.older == row[i - 1];
      e.older.newer := e.newer;
    } else {
      g.oldest := e.newer;
    }
    forall k | 0 <= k < |row| && k != i ensures LinkPast(g, row, i, k) {
      assert old(Link(g, row, k));
    }
  }

  lemma BypassedRow<K>(g: FreqNode<K>, row: seq<Entry<K>>, i: nat)
    requires i < |row| && Distinct(row) && Bypassed(g, row, i)
    ensures Row(g, Without(row, i))
  {
    var row' := Without(row, i);
    WithoutAt(row, i, 0);
    WithoutAt(row, i, |row'| - 1);
    forall j | 0 <= j < |row'| ensures Link(g, row', j) {
      var k := if j < i then j else j + 1;
      assert row'[j] == row[k] && LinkPast(g, row, i, k);
      WithoutAt(row, i, j + 1);
      WithoutAt(row, i, j - 1);
    }
  }

  /** Takes the entry at i out of the row; it keeps its own links. */
  method Unlink<K>(g: FreqNode<K>, e: Entry<K>, ghost row: seq<Entry<K>>, ghost i: nat)
    requires Row(g, row) && i < |row| && e == row[i]
    modifies g`newest, g`oldest, Members(row)`newer, Members(row)`older
    ensures Row(g, Without(row, i))
  {
    Bypass(g, e, row, i);
    BypassedRow(g, row, i);
  }

  lemma WithoutAt<K>(row: seq<Entry<K>>, i: nat, j: int)
    requires i < |row|
    ensures EntryAt(Without(row, i), j) == EntryAt(row, if j < i then j else j + 1)
  {
  }

  /** freq_node::evict: takes the oldest out. */
  method Evict<K>(g: FreqNode<K>, ghost row: seq<Entry<K>>) returns (key: K, some: bool)
    requires Row(g, row) && row != []
    modifies g`oldest, g`count, Members(row)`older
    ensures key == row[0].key && (some <==> |row| > 1) && g.count == old(g.count) - 1
    ensures some ==> Row(g, row[1..])
  {
    assert Link(g, row, 0);
    key := g.oldest.key;
    var oldest := g.oldest.newer;
    g.oldest := oldest;
    g.count := g.count - 1;
    ghost var row' := row[1..];
    if g.oldest != null {
      assert g.oldest == row[1];
      g.oldest.older := null;
      forall j | 0 <= j < |row'| ensures Link(g, row', j) {
        assert row'[j] == row[j + 1] && old(Link(g, row, j + 1));
      }
      some := true;
    } else {
      some := false;
    }
  }
}
