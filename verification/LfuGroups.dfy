/** The frequency nodes, doubly linked from the coldest to the hottest. */
module LfuGroups {
  import opened LfuRows

  ghost function GroupAt<K>(groups: seq<FreqNode<K>>, i: int): FreqNode?<K> {
    if 0 <= i < |groups| then groups[i] else null
  }

  ghost predicate GroupLink<K>(groups: seq<FreqNode<K>>, i: nat)
    requires i < |groups|
    reads groups[i]
  {
    groups[i].hotter == GroupAt(groups, i + 1) && groups[i].colder == GroupAt(groups, i - 1)
  }

  ghost predicate Groups<K>(head: FreqNode?<K>, groups: seq<FreqNode<K>>)
    reads Members(groups)
  {
    && Distinct(groups) && head == GroupAt(groups, 0)
    && forall i :: 0 <= i < |groups| ==> GroupLink(groups, i)
  }

  ghost function WithAt<T>(s: seq<T>, k: nat, x: T): seq<T>
    requires k <= |s|
  {
    s[..k] + [x] + s[k..]
  }

  lemma WithAtAt<K>(groups: seq<FreqNode<K>>, k: nat, n: FreqNode<K>, j: int)
    requires k <= |groups|
    ensures GroupAt(WithAt(groups, k, n), j) ==
      if j < k then GroupAt(groups, j) else if j == k then n else GroupAt(groups, j - 1)
  {
  }

  lemma GroupWithoutAt<K>(groups: seq<FreqNode<K>>, k: nat, j: int)
    requires k < |groups|
    ensures GroupAt(Without(groups, k), j) == GroupAt(groups, if j < k then j else j + 1)
  {
  }

  /** A new node before all others. */
  method PushFront<K>(head: FreqNode?<K>, n: FreqNode<K>, ghost groups: seq<FreqNode<K>>)
    requires Groups(head, groups) && n !in groups && n.colder == null
    modifies n`hotter, Members(groups)`colder
    ensures Groups(n, WithAt(groups, 0, n))
  {
    n.hotter := head;
    if head != null {
      assert head == groups[0];
      head.colder := n;
    }
    ghost var groups' := WithAt(groups, 0, n);
    forall i | 0 <= i < |groups'| ensures GroupLink(groups', i) {
      WithAtAt(groups, 0, n, i + 1);
      WithAtAt(groups, 0, n, i - 1);
      assert i > 0 ==> groups'[i] == groups[i - 1] && groups[i - 1] != n && old(GroupLink(groups, i - 1));
    }
  }

  /** A new node behind the one at k. */
  method PushBehind<K>(head: FreqNode<K>, p: FreqNode<K>, n: FreqNode<K>, ghost groups: seq<FreqNode<K>>, ghost k: nat)
    requires Groups(head, groups) && k < |groups| && p == groups[k] && n !in groups
    modifies n`hotter, n`colder, Members(groups)`hotter, Members(groups)`colder
    ensures Groups(head, WithAt(groups, k + 1, n))
  {
    assert GroupLink(groups, k);
    n.colder := p;
    n.hotter := p.hotter;
    if p.hotter != null {
      assert p.hotter == groups[k + 1];
      p.hotter.colder := n;
    }
    p.hotter := n;
    ghost var groups' := WithAt(groups, k + 1, n);
    WithAtAt(groups, k + 1, n, 0);
    forall i | 0 <= i < |groups'| ensures GroupLink(groups', i) {
      WithAtAt(groups, k + 1, n, i);
      WithAtAt(groups, k + 1, n, i + 1);
      WithAtAt(groups, k + 1, n, i - 1);
      ghost var j := if i <= k then i else i - 1;
      assert i != k + 1 ==> groups'[i] == groups[j] && groups[j] != n && old(GroupLink(groups, j));
    }
  }

  /** Takes the node at k out; returns the head of what remains. */
  method Remove<K>(head: FreqNode<K>, p: FreqNode<K>, ghost groups: seq<FreqNode<K>>, ghost k: nat)
      returns (head': FreqNode?<K>)
    requires Groups(head, groups) && k < |groups| && p == groups[k]
    modifies Members(groups)`hotter, Members(groups)`colder
    ensures Groups(head', Without(groups, k))
  {
    head' := head;
    assert GroupLink(groups, k);
    if p.hotter != null {
      assert p.hotter == groups[k + 1];
      p.hotter.colder := p.colder;
    }
    if p.colder != null {
      assert p.colder == groups[k - 1];
      p.colder.hotter := p.hotter;
    } else {
      head' := p.hotter;
    }
    ghost var groups' := Without(groups, k);
    GroupWithoutAt(groups, k, 0);
    forall i | 0 <= i < |groups'| ensures GroupLink(groups', i) {
      GroupWithoutAt(groups, k, i + 1);
      GroupWithoutAt(groups, k, i - 1);
      ghost var j := if i < k then i else i + 1;
      assert groups'[i] == groups[j] && groups[j] != p && old(GroupLink(groups, j));
    }
  }
}
