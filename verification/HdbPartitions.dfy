/** The list of disk partitions, oldest first. */
module HdbPartitions {
  import opened HdbParts
  import opened HdbLevels

  datatype Partition<K, V> = Partition(name: string, level: nat, sdb: Sdb<K, V>)

  function Sdbs<K, V>(disk: seq<Partition<K, V>>): (r: seq<Sdb<K, V>>)
    ensures |r| == |disk| && forall i :: 0 <= i < |r| ==> r[i] == disk[i].sdb
  {
    seq(|disk|, i requires 0 <= i < |disk| => disk[i].sdb)
  }

  function Levels<K, V>(disk: seq<Partition<K, V>>): (r: seq<nat>)
    ensures |r| == |disk| && forall i :: 0 <= i < |r| ==> r[i] == disk[i].level
  {
    seq(|disk|, i requires 0 <= i < |disk| => disk[i].level)
  }

  // ---- names ----

  function Decimal(n: nat): string {
    (if n < 10 then "" else Decimal(n / 10)) + [['0', '1', '2', '3', '4', '5', '6', '7', '8', '9'][n % 10]]
  }

  function Pluses(level: nat): string {
    if level == 0 then "" else Pluses(level - 1) + "+"
  }

  /** getSdbName: what the constructor reopens slice i of a level under. */
  function SdbName(base: string, slice: nat, level: nat): string {
    base + ".hdb.partition" + Decimal(slice) + Pluses(level)
  }

  lemma {:induction false} DecimalDigits(n: nat)
    ensures |Decimal(n)| > 0 && forall i :: 0 <= i < |Decimal(n)| ==> '0' <= Decimal(n)[i] <= '9'
    decreases n
  {
    if n >= 10 {
      DecimalDigits(n / 10);
    }
  }

  lemma {:induction false} DecimalInjective(m: nat, n: nat)
    requires Decimal(m) == Decimal(n)
    ensures m == n
    decreases m
  {
    var a, b := Decimal(m), Decimal(n);
    assert a[|a| - 1] == b[|b| - 1] && m % 10 == n % 10;
    assert a[..|a| - 1] == b[..|b| - 1];
    if m >= 10 && n >= 10 {
      assert a[..|a| - 1] == Decimal(m / 10) && b[..|b| - 1] == Decimal(n / 10);
      DecimalInjective(m / 10, n / 10);
    } else if m >= 10 {
      DecimalDigits(m / 10);
    } else if n >= 10 {
      DecimalDigits(n / 10);
    }
  }

  lemma {:induction false} PlusesOnly(level: nat)
    ensures |Pluses(level)| == level && forall i :: 0 <= i < level ==> Pluses(level)[i] == '+'
  {
    if level > 0 {
      PlusesOnly(level - 1);
    }
  }

  /** Digits and then pluses can be read in one way only. */
  lemma DigitsThenPluses(a: string, b: string, i: nat, j: nat)
    requires forall k :: 0 <= k < |a| ==> a[k] != '+'
    requires forall k :: 0 <= k < |b| ==> b[k] != '+'
    requires a + Pluses(i) == b + Pluses(j)
    ensures a == b && i == j
  {
    PlusesOnly(i);
    PlusesOnly(j);
    var s := a + Pluses(i);
    assert s == b + Pluses(j);
    assert (forall k :: 0 <= k < |a| ==> s[k] == a[k]) && forall k :: 0 <= k < |b| ==> s[k] == b[k];
    assert (i > 0 ==> s[|a|] == '+') && (j > 0 ==> s[|b|] == '+');
    assert |a| == |b|;
    assert a == s[..|a|] && b == s[..|b|];
  }

  /** No two partitions have the same name. */
  lemma NameInjective(base: string, slice: nat, level: nat, slice': nat, level': nat)
    requires SdbName(base, slice, level) == SdbName(base, slice', level')
    ensures slice == slice' && level == level'
  {
    var front := base + ".hdb.partition";
    var a, b := Decimal(slice) + Pluses(level), Decimal(slice') + Pluses(level');
    assert SdbName(base, slice, level) == front + a && SdbName(base, slice', level') == front + b;
    assert a == SdbName(base, slice, level)[|front|..] && b == SdbName(base, slice', level')[|front|..];
    DecimalDigits(slice);
    DecimalDigits(slice');
    DigitsThenPluses(Decimal(slice), Decimal(slice'), level, level');
    DecimalInjective(slice, slice');
  }

  lemma NamePlus(base: string, slice: nat, level: nat)
    ensures SdbName(base, slice, level) + "+" == SdbName(base, slice, level + 1)
  {
    assert SdbName(base, slice, level + 1) == (base + ".hdb.partition" + Decimal(slice)) + (Pluses(level) + "+");
  }

  ghost predicate Named<K, V>(base: string, disk: seq<Partition<K, V>>) {
    forall i :: 0 <= i < |disk| ==> disk[i].name == SdbName(base, i, disk[i].level)
  }

  lemma NamesDiffer<K, V>(base: string, disk: seq<Partition<K, V>>, i: nat, j: nat)
    requires Named(base, disk) && i < j < |disk|
    ensures disk[i].name != disk[j].name
  {
    if disk[i].name == disk[j].name {
      NameInjective(base, i, disk[i].level, j, disk[j].level);
      assert false;
    }
  }

  // ---- the shape of the list ----

  ghost predicate Shape<K, V>(base: string, M: nat, disk: seq<Partition<K, V>>)
    requires M >= 2
  {
    Named(base, disk) && AlmostCanonical(Levels(disk), M)
  }

  function Flushed<K, V>(base: string, disk: seq<Partition<K, V>>, mem: Sdb<K, V>): seq<Partition<K, V>> {
    disk + [Partition(SdbName(base, |disk|, 0), 0, mem)]
  }

  lemma FlushedParts<K, V>(base: string, disk: seq<Partition<K, V>>, mem: Sdb<K, V>)
    requires Named(base, disk)
    ensures Named(base, Flushed(base, disk, mem))
    ensures Levels(Flushed(base, disk, mem)) == Levels(disk) + [0]
    ensures Sdbs(Flushed(base, disk, mem)) == Sdbs(disk) + [mem]
  {
  }

  lemma FlushedShape<K, V>(base: string, M: nat, disk: seq<Partition<K, V>>, mem: Sdb<K, V>)
    requires M >= 2 && Named(base, disk) && Canonical(Levels(disk), M)
    ensures Shape(base, M, Flushed(base, disk, mem))
    ensures Weight(Levels(Flushed(base, disk, mem)), M) == Weight(Levels(disk), M) + 1
    ensures Sdbs(Flushed(base, disk, mem)) == Sdbs(disk) + [mem]
  {
    FlushedParts(base, disk, mem);
    FlushLevels(Levels(disk), M);
  }

  function Merged<K, V>(M: nat, disk: seq<Partition<K, V>>, dst: Sdb<K, V>): seq<Partition<K, V>>
    requires 2 <= M <= |disk|
  {
    var p := disk[|disk| - M];
    disk[..|disk| - M] + [Partition(p.name + "+", p.level + 1, dst)]
  }

  lemma MergedParts<K, V>(M: nat, disk: seq<Partition<K, V>>, dst: Sdb<K, V>)
    requires 2 <= M <= |disk|
    ensures Sdbs(Merged(M, disk, dst)) == Sdbs(disk[..|disk| - M]) + [dst]
    ensures Sdbs(disk) == Sdbs(disk[..|disk| - M]) + Sdbs(disk[|disk| - M..])
  {
  }

  lemma MergedNamed<K, V>(base: string, M: nat, disk: seq<Partition<K, V>>, dst: Sdb<K, V>)
    requires 2 <= M <= |disk| && Named(base, disk)
    ensures Named(base, Merged(M, disk, dst))
  {
    NamePlus(base, |disk| - M, disk[|disk| - M].level);
  }

  lemma MergedShape<K, V>(base: string, M: nat, disk: seq<Partition<K, V>>, dst: Sdb<K, V>)
    requires 2 <= M <= |disk| && Shape(base, M, disk) && disk[|disk| - M].level == disk[|disk| - 1].level
    ensures Shape(base, M, Merged(M, disk, dst))
    ensures Weight(Levels(Merged(M, disk, dst)), M) == Weight(Levels(disk), M)
  {
    MergedNamed(base, M, disk, dst);
    MergedDigits(M, disk, dst, |disk| - M);
  }

  lemma MergedDigits<K, V>(M: nat, disk: seq<Partition<K, V>>, dst: Sdb<K, V>, n: nat)
    requires 2 <= M && n + M == |disk| && AlmostCanonical(Levels(disk), M) && disk[n].level == disk[|disk| - 1].level
    ensures AlmostCanonical(Levels(Merged(M, disk, dst)), M)
    ensures Weight(Levels(Merged(M, disk, dst)), M) == Weight(Levels(disk), M)
  {
    MergedLevels(M, disk, dst, n);
    MergeLevels(Levels(disk), M, n);
  }

  lemma MergedLevels<K, V>(M: nat, disk: seq<Partition<K, V>>, dst: Sdb<K, V>, n: nat)
    requires 2 <= M && n + M == |disk|
    ensures Levels(Merged(M, disk, dst)) == Levels(disk)[..n] + [Levels(disk)[n] + 1]
  {
  }

  lemma SettledShape<K, V>(base: string, M: nat, disk: seq<Partition<K, V>>)
    requires M >= 2 && Shape(base, M, disk)
    requires |disk| < M || disk[|disk| - M].level != disk[|disk| - 1].level
    ensures Canonical(Levels(disk), M)
  {
    NotMergable(Levels(disk), M);
  }

  function Optimized<K, V>(disk: seq<Partition<K, V>>, dst: Sdb<K, V>): seq<Partition<K, V>>
    requires disk != []
  {
    [Partition(disk[0].name + "+", disk[0].level + 1, dst)]
  }

  lemma OptimizedShape<K, V>(base: string, M: nat, disk: seq<Partition<K, V>>, dst: Sdb<K, V>)
    requires M >= 2 && disk != [] && Named(base, disk)
    ensures Named(base, Optimized(disk, dst)) && Canonical(Levels(Optimized(disk, dst)), M)
    ensures Sdbs(Optimized(disk, dst)) == [dst]
  {
    NamePlus(base, 0, disk[0].level);
  }
}
