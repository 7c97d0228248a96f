/** Nodes with towers of pointers, and chains of them. */
module SkiplistNodes {

  class Node<K, V> {
    const key: K
    var value: V
    const next: array<Node?<K, V>>

    /** level pointers, all null. */
    constructor (key: K, value: V, level: nat)
      ensures this.key == key && this.value == value && fresh(next) && next.Length == level
      ensures forall i :: 0 <= i < level ==> next[i] == null
    {
      this.key, this.value := key, value;
      next := new Node?<K, V>[level](_ => null);
    }
  }

  /** The first node of the list that is taller than l. */
  ghost function First<K, V>(s: seq<Node<K, V>>, l: nat): (x: Node?<K, V>)
  {
    if s == [] then null else if s[0].next.Length > l then s[0] else First(s[1..], l)
  }

  lemma {:induction false} FirstConcat<K, V>(s: seq<Node<K, V>>, t: seq<Node<K, V>>, l: nat)
    ensures First(s + t, l) == if First(s, l) != null then First(s, l) else First(t, l)
  {
    if s == [] {
      assert s + t == t;
    } else {
      assert (s + t)[1..] == s[1..] + t;
      FirstConcat(s[1..], t, l);
    }
  }

  lemma {:induction false} FirstNull<K, V>(s: seq<Node<K, V>>, l: nat)
    ensures First(s, l) == null <==> forall i :: 0 <= i < |s| ==> s[i].next.Length <= l
  {
    if s != [] {
      FirstNull(s[1..], l);
      assert forall i :: 0 < i < |s| ==> s[i] == s[1..][i - 1];
    }
  }

  /** Where the first node is. */
  lemma {:induction false} FirstAt<K, V>(s: seq<Node<K, V>>, l: nat) returns (i: nat)
    requires First(s, l) != null
    ensures i < |s| && First(s, l) == s[i] && s[i].next.Length > l
    ensures forall j :: 0 <= j < i ==> s[j].next.Length <= l
  {
    if s[0].next.Length > l {
      i := 0;
    } else {
      i := FirstAt(s[1..], l);
      assert forall j :: 0 < j <= i ==> s[j] == s[1..][j - 1];
      i := i + 1;
    }
  }

  ghost function Inserted<T>(s: seq<T>, p: nat, x: T): seq<T>
    requires p <= |s|
  {
    s[..p] + [x] + s[p..]
  }

  ghost function Removed<T>(s: seq<T>, p: nat): seq<T>
    requires p < |s|
  {
    s[..p] + s[p + 1..]
  }

  /** A pointer that skips nothing tall before p comes to point to the new node, others stay. */
  lemma FirstInserted<K, V>(s: seq<Node<K, V>>, p: nat, x: Node<K, V>, q: nat, l: nat)
    requires q <= p <= |s|
    ensures First(Inserted(s, p, x)[q..], l) ==
      if x.next.Length > l && First(s[q..p], l) == null then x else First(s[q..], l)
  {
    assert Inserted(s, p, x)[q..] == s[q..p] + ([x] + s[p..]);
    assert s[q..] == s[q..p] + s[p..];
    FirstConcat(s[q..p], [x] + s[p..], l);
    FirstConcat(s[q..p], s[p..], l);
    assert ([x] + s[p..])[1..] == s[p..];
  }

  /** Taking a node out, such a pointer comes to point to what follows it. */
  lemma FirstRemoved<K, V>(s: seq<Node<K, V>>, p: nat, q: nat, l: nat)
    requires q <= p < |s|
    ensures First(Removed(s, p)[q..], l) ==
      if s[p].next.Length > l && First(s[q..p], l) == null then First(s[p + 1..], l) else First(s[q..], l)
  {
    assert Removed(s, p)[q..] == s[q..p] + s[p + 1..];
    assert s[q..] == s[q..p] + ([s[p]] + s[p + 1..]);
    FirstConcat(s[q..p], s[p + 1..], l);
    FirstConcat(s[q..p], [s[p]] + s[p + 1..], l);
    assert ([s[p]] + s[p + 1..])[1..] == s[p + 1..];
  }
}
