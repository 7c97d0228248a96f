/** The levels of the partitions, oldest first: the digits of a number in base M. */
module HdbLevels {

  ghost predicate NonIncreasing(levels: seq<nat>) {
    forall i, j :: 0 <= i < j < |levels| ==> levels[i] >= levels[j]
  }

  /** No M neighbours below position n are of one level. */
  ghost predicate NoRun(levels: seq<nat>, M: nat, n: int)
    requires M >= 2
  {
    forall i, j :: 0 <= i < j < |levels| && j < n && j == i + M - 1 ==> levels[i] != levels[j]
  }

  /** What holds between operations: each level occurs fewer than M times. */
  ghost predicate Canonical(levels: seq<nat>, M: nat)
    requires M >= 2
  {
    NonIncreasing(levels) && NoRun(levels, M, |levels|)
  }

  /** While merging, the newest level may occur M times. */
  ghost predicate AlmostCanonical(levels: seq<nat>, M: nat)
    requires M >= 2
  {
    NonIncreasing(levels) && NoRun(levels, M, |levels| - 1)
  }

  function Power(M: nat, k: nat): nat {
    if k == 0 then 1 else M * Power(M, k - 1)
  }

  function Weight(levels: seq<nat>, M: nat): nat {
    if levels == [] then 0 else Weight(levels[..|levels| - 1], M) + Power(M, levels[|levels| - 1])
  }

  lemma WeightNext(levels: seq<nat>, l: nat, M: nat)
    ensures Weight(levels + [l], M) == Weight(levels, M) + Power(M, l)
  {
    assert (levels + [l])[..|levels|] == levels;
  }

  /** A flush adds a partition of level 0. */
  lemma FlushLevels(levels: seq<nat>, M: nat)
    requires M >= 2 && Canonical(levels, M)
    ensures AlmostCanonical(levels + [0], M) && Weight(levels + [0], M) == Weight(levels, M) + 1
  {
    WeightNext(levels, 0, M);
  }

  lemma {:induction false} EqualWeight(levels: seq<nat>, l: nat, n: nat, M: nat)
    requires n <= |levels| && forall i :: |levels| - n <= i < |levels| ==> levels[i] == l
    ensures Weight(levels, M) == Weight(levels[..|levels| - n], M) + n * Power(M, l)
    decreases n
  {
    if n == 0 {
      assert levels[..|levels|] == levels;
    } else {
      var front := levels[..|levels| - 1];
      EqualWeight(front, l, n - 1, M);
      assert front[..|levels| - n] == levels[..|levels| - n];
      assert n * Power(M, l) == (n - 1) * Power(M, l) + Power(M, l);
    }
  }

  /** The M newest partitions are of level l, the others higher. */
  lemma NewestLevels(levels: seq<nat>, M: nat)
    requires M >= 2 && AlmostCanonical(levels, M) && |levels| >= M && levels[|levels| - M] == levels[|levels| - 1]
    ensures forall i :: |levels| - M <= i < |levels| ==> levels[i] == levels[|levels| - M]
    ensures forall i :: 0 <= i < |levels| - M ==> levels[i] > levels[|levels| - M]
  {
    var n := |levels| - M;
    var l := levels[n];
    forall i | n <= i < |levels| ensures levels[i] == l {
      assert i == n || levels[n] >= levels[i];
      assert i == |levels| - 1 || levels[i] >= levels[|levels| - 1];
    }
    if n > 0 {
      var j := n - 1 + M - 1;
      assert levels[n - 1] != levels[j] && levels[n - 1] >= levels[j] == l;
      assert forall i :: 0 <= i < n - 1 ==> levels[i] >= levels[n - 1];
    }
  }

  /** A merge replaces the M newest partitions, of level l, by one of level l + 1. */
  lemma MergeLevels(levels: seq<nat>, M: nat, n: nat)
    requires M >= 2 && AlmostCanonical(levels, M) && n + M == |levels| && levels[n] == levels[|levels| - 1]
    ensures AlmostCanonical(levels[..n] + [levels[n] + 1], M)
    ensures Weight(levels[..n] + [levels[n] + 1], M) == Weight(levels, M)
  {
    NewestLevels(levels, M);
    EqualWeight(levels, levels[n], M, M);
    WeightNext(levels[..n], levels[n] + 1, M);
    RaisedAlmost(levels, M, n);
  }

  lemma RaisedAlmost(levels: seq<nat>, M: nat, n: nat)
    requires M >= 2 && NonIncreasing(levels) && NoRun(levels, M, n) && n < |levels|
    requires forall i :: 0 <= i < n ==> levels[i] > levels[n]
    ensures AlmostCanonical(levels[..n] + [levels[n] + 1], M)
  {
  }

  /** mergable: compares the newest level with the M - 1 before it. */
  method NewestAlike(levels: seq<nat>, M: nat) returns (test: bool)
    requires M >= 2 && NonIncreasing(levels)
    ensures test <==> |levels| >= M && levels[|levels| - M] == levels[|levels| - 1]
  {
    var n := |levels|;
    test := n >= M;
    if test {
      for i := 1 to M
        invariant test && levels[n - i] == levels[n - 1]
      {
        if levels[n - 1 - i] != levels[n - 1] {
          assert levels[n - 1 - i] >= levels[n - 1];
          assert n - M == n - 1 - i || levels[n - M] >= levels[n - 1 - i];
          return false;
        }
      }
    }
  }

  lemma NotMergable(levels: seq<nat>, M: nat)
    requires M >= 2 && AlmostCanonical(levels, M) && (|levels| < M || levels[|levels| - M] != levels[|levels| - 1])
    ensures Canonical(levels, M)
  {
  }

  // ---- the levels are determined by the number of flushes ----

  function Down(levels: seq<nat>): (r: seq<nat>)
    requires forall i :: 0 <= i < |levels| ==> levels[i] >= 1
    ensures |r| == |levels| && forall i :: 0 <= i < |r| ==> r[i] == levels[i] - 1
  {
    seq(|levels|, i requires 0 <= i < |levels| => levels[i] - 1)
  }

  lemma {:induction false} DownWeight(levels: seq<nat>, M: nat)
    requires forall i :: 0 <= i < |levels| ==> levels[i] >= 1
    ensures Weight(levels, M) == M * Weight(Down(levels), M)
    decreases |levels|
  {
    if levels != [] {
      var n := |levels| - 1;
      DownWeight(levels[..n], M);
      assert Down(levels)[..n] == Down(levels[..n]);
      assert M * (Weight(Down(levels[..n]), M) + Power(M, levels[n] - 1)) == M * Weight(Down(levels[..n]), M) +
        M * Power(M, levels[n] - 1);
    }
  }

  /** The number of partitions of level 0 at the end. */
  function Zeros(levels: seq<nat>): (z: nat)
    ensures z <= |levels|
  {
    if levels == [] || levels[|levels| - 1] != 0 then 0 else 1 + Zeros(levels[..|levels| - 1])
  }

  lemma {:induction false} ZerosAre(levels: seq<nat>)
    requires NonIncreasing(levels)
    ensures var n := |levels| - Zeros(levels);
      && (forall i :: n <= i < |levels| ==> levels[i] == 0)
      && (forall i :: 0 <= i < n ==> levels[i] >= 1)
    decreases |levels|
  {
    if levels != [] && levels[|levels| - 1] == 0 {
      ZerosAre(levels[..|levels| - 1]);
    }
  }

  lemma FewZeros(levels: seq<nat>, z: nat, M: nat)
    requires M >= 2 && Canonical(levels, M) && z <= |levels| && forall i :: |levels| - z <= i < |levels| ==>
      levels[i] == 0
    ensures z < M
  {
    assert |levels| >= M ==> levels[|levels| - M] != levels[|levels| - 1];
  }

  lemma SplitWeight(levels: seq<nat>, high: seq<nat>, z: nat, M: nat)
    requires z <= |levels| && high == levels[..|levels| - z] && forall i :: 0 <= i < |high| ==> high[i] >= 1
    requires forall i :: |levels| - z <= i < |levels| ==> levels[i] == 0
    ensures Weight(levels, M) == M * Weight(Down(high), M) + z
  {
    EqualWeight(levels, 0, z, M);
    DownWeight(high, M);
  }

  lemma DownCanonical(high: seq<nat>, M: nat)
    requires M >= 2 && Canonical(high, M) && forall i :: 0 <= i < |high| ==> high[i] >= 1
    ensures Canonical(Down(high), M)
  {
  }

  /** The last digit is the number of zeros; the others, one level down, are those of the quotient. */
  lemma Digits(levels: seq<nat>, M: nat) returns (high: seq<nat>, z: nat)
    requires M >= 2 && Canonical(levels, M)
    ensures z < M && z <= |levels| && high == levels[..|levels| - z]
    ensures forall i :: 0 <= i < |high| ==> high[i] >= 1
    ensures forall i :: |levels| - z <= i < |levels| ==> levels[i] == 0
    ensures Canonical(Down(high), M) && Weight(levels, M) == M * Weight(Down(high), M) + z
  {
    z := Zeros(levels);
    ZerosAre(levels);
    high := levels[..|levels| - z];
    FewZeros(levels, z, M);
    SplitWeight(levels, high, z, M);
    DownCanonical(high, M);
  }

  lemma {:induction false} WeightPositive(levels: seq<nat>, M: nat)
    requires M >= 2
    ensures levels != [] ==> Weight(levels, M) > 0
  {
    if levels != [] {
      PowerPositive(M, levels[|levels| - 1]);
    }
  }

  lemma {:induction false} PowerPositive(M: nat, k: nat)
    requires M >= 2
    ensures Power(M, k) >= 1
  {
    if k > 0 {
      PowerPositive(M, k - 1);
    }
  }

  lemma SameDigit(M: nat, a: nat, x: nat, b: nat, y: nat)
    requires M >= 2 && x < M && y < M && M * a + x == M * b + y
    ensures a == b && x == y
  {
    if a < b {
      Apart(M, a, b);
    } else if b < a {
      Apart(M, b, a);
    }
  }

  lemma Apart(M: nat, a: nat, b: nat)
    requires a < b
    ensures M * b >= M * a + M
  {
    var d := b - a - 1;
    assert M * b == M * (a + (d + 1)) == M * a + M * d + M;
  }

  lemma Smaller(M: nat, w: nat, z: nat)
    requires M >= 2 && M * w + z > 0
    ensures w < M * w + z
  {
    if w > 0 {
      Apart(w, 1, M);
    }
  }

  /** Two canonical lists of the same weight are the same: base-M digits are unique. */
  lemma {:induction false} LevelsDetermined(a: seq<nat>, b: seq<nat>, M: nat)
    requires M >= 2 && Canonical(a, M) && Canonical(b, M) && Weight(a, M) == Weight(b, M)
    ensures a == b
    decreases Weight(a, M)
  {
    WeightPositive(a, M);
    WeightPositive(b, M);
    if a != [] && b != [] {
      var ha, za := Digits(a, M);
      var hb, zb := Digits(b, M);
      var wa, wb := Weight(Down(ha), M), Weight(Down(hb), M);
      SameDigit(M, wa, za, wb, zb);
      Smaller(M, wa, za);
      LevelsDetermined(Down(ha), Down(hb), M);
      UpAgain(ha, hb);
      assert |a| == |b|;
      assert a == b;
    }
  }

  lemma UpAgain(a: seq<nat>, b: seq<nat>)
    requires forall i :: 0 <= i < |a| ==> a[i] >= 1
    requires forall i :: 0 <= i < |b| ==> b[i] >= 1
    requires Down(a) == Down(b)
    ensures a == b
  {
    forall i | 0 <= i < |a| ensures a[i] == b[i] {
      assert Down(a)[i] == Down(b)[i];
    }
  }
}
