/** The length short runs are extended to. */
module MinRun {
  import opened Bits

  const MIN_MERGE := 32

  /** m is n / 2^k rounded up. */
  ghost predicate CeilShift(n: nat, k: nat, m: nat) {
    n <= m * Pow2(k) < n + Pow2(k)
  }

  /** The number of halvings that brings n below 32 and not below 16; none when it is below 32. */
  ghost predicate Shifts(n: nat, k: nat) {
    n < 32 * Pow2(k) && (k > 0 ==> 16 * Pow2(k) <= n)
  }

  lemma Between(n: nat, p: nat, low: nat, lo: nat, hi: nat)
    requires lo <= n < hi && low < p
    ensures lo * p <= n * p + low < hi * p
  {
    Monotone(lo, n, p);
    Monotone(n + 1, hi, p);
    RoundedUp(n, p, 1);
  }

  lemma Monotone(a: nat, b: nat, p: nat)
    requires a <= b
    ensures a * p <= b * p
  {
  }

  lemma Halved(n: nat, p: nat)
    ensures n * p == n / 2 * (2 * p) + (if n % 2 == 1 then p else 0)
  {
    assert n == n / 2 * 2 + n % 2;
    assert n / 2 * 2 * p == n / 2 * (2 * p);
  }

  lemma RoundedUp(n: nat, p: nat, r: nat)
    requires r <= 1
    ensures (n + r) * p == n * p + (if r == 1 then p else 0)
  {
  }

  /**
    The least length of a run: n itself when it is small, else n / 2^k rounded up for the
    k that brings it between 16 and 32. Cut into runs of that length, n elements make at
    most 2^k runs.
   */
  method MinRunLength(n0: nat) returns (m: nat)
    ensures n0 < MIN_MERGE ==> m == n0
    ensures n0 >= MIN_MERGE ==> MIN_MERGE / 2 <= m <= MIN_MERGE
    ensures exists k :: CeilShift(n0, k, m) && Shifts(n0, k)
  {
    var n, r := n0, 0;
    ghost var k, low := 0, 0;
    while n >= MIN_MERGE
      invariant n0 == n * Pow2(k) + low && 0 <= low < Pow2(k)
      invariant r == (if low == 0 then 0 else 1)
      invariant n0 < MIN_MERGE ==> n == n0 && k == 0
      invariant n0 >= MIN_MERGE || k > 0 ==> n >= MIN_MERGE / 2
    {
      Halved(n, Pow2(k));
      low := if n % 2 == 1 then low + Pow2(k) else low;
      r := if n % 2 == 1 then 1 else r;
      n := n / 2;
      k := k + 1;
    }
    m := n + r;
    RoundedUp(n, Pow2(k), r);
    Between(n, Pow2(k), low, if k > 0 then 16 else 0, 32);
    assert CeilShift(n0, k, m);
  }
}
