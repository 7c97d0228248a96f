/** upperpower2: rounding a 64-bit number up to a power of two by smearing its top bit downwards. */
module PowerSizing {
  import opened Bits

  /** The number of 64-bit values. */
  function Words(): (w: nat)
    ensures w >= 1
  {
    Pow2(64)
  }

  function Smear(x: nat, m: nat): nat {
    Or(x, Shr(x, m))
  }

  function SmearAll(x: nat): nat {
    Smear(Smear(Smear(Smear(Smear(Smear(x, 1), 2), 4), 8), 16), 32)
  }

  lemma DecrementValue(x: nat, w: nat)
    requires w >= 1
    ensures x < w ==> (x + w - 1) % w == if x == 0 then w - 1 else x - 1
  {
    if x == 0 {
      Remainder(w - 1, w, 0, w - 1);
    } else if x < w {
      Remainder(x + w - 1, w, 1, x - 1);
    }
  }

  lemma IncrementValue(x: nat, w: nat)
    requires w >= 1
    ensures x < w ==> (x + 1) % w == if x == w - 1 then 0 else x + 1
  {
    if x == w - 1 {
      Remainder(w, w, 1, 0);
    } else if x < w {
      Remainder(x + 1, w, 0, x + 1);
    }
  }

  /** x-- and x++ on unsigned numbers below w, which wrap around. */
  function Decrement(x: nat, w: nat): (r: nat)
    requires w >= 1
    ensures x < w ==> r == if x == 0 then w - 1 else x - 1
  {
    DecrementValue(x, w);
    (x + w - 1) % w
  }

  function Increment(x: nat, w: nat): (r: nat)
    requires w >= 1
    ensures x < w ==> r == if x == w - 1 then 0 else x + 1
  {
    IncrementValue(x, w);
    (x + 1) % w
  }

  function UpperPower2(x: nat): nat
    requires x < Words()
  {
    Increment(SmearAll(Decrement(x, Words())), Words())
  }

  /** Bit p is the highest, and the m bits from it downwards are set. */
  ghost predicate TopOnes(x: nat, p: nat, m: nat) {
    x < Pow2(p + 1) && forall i :: 0 <= i <= p && p - i < m ==> Bit(x, i)
  }

  lemma SmearDoubles(x: nat, p: nat, m: nat)
    requires TopOnes(x, p, m) && m > 0
    ensures TopOnes(Smear(x, m), p, 2 * m)
  {
    var y := Smear(x, m);
    forall i | 0 <= i <= p && p - i < 2 * m ensures Bit(y, i) {
      BitOr(x, Shr(x, m), i);
      BitShr(x, m, i);
    }
    forall i | p + 1 <= i ensures !Bit(y, i) {
      BitOr(x, Shr(x, m), i);
      BitShr(x, m, i);
      BitHigh(x, p + 1, i);
      BitHigh(x, p + 1, m + i);
    }
    BitsBound(y, p + 1);
  }

  lemma SmearZero(m: nat)
    ensures Smear(0, m) == 0
  {
    forall i ensures !Bit(Smear(0, m), i) {
      BitOr(0, Shr(0, m), i);
      BitShr(0, m, i);
      BitZero(i);
      BitZero(m + i);
    }
    BitsBound(Smear(0, m), 0);
  }

  /** Six steps set every bit below the top one. */
  lemma Smeared(x: nat, p: nat)
    requires Pow2(p) <= x < Pow2(p + 1) && Bit(x, p) && p < 64
    ensures SmearAll(x) == Pow2(p + 1) - 1
  {
    var a := Smear(x, 1);
    var b := Smear(a, 2);
    var c := Smear(b, 4);
    var d := Smear(c, 8);
    var e := Smear(d, 16);
    SmearDoubles(x, p, 1);
    SmearDoubles(a, p, 2);
    SmearDoubles(b, p, 4);
    SmearDoubles(c, p, 8);
    SmearDoubles(d, p, 16);
    SmearDoubles(e, p, 32);
    AllOnes(Smear(e, 32), p + 1);
  }

  /** r is the least power of two not below x. */
  ghost predicate LeastPower(x: nat, r: nat) {
    exists k: nat :: r == Pow2(k) && x <= Pow2(k) && forall j: nat :: x <= Pow2(j) ==> k <= j
  }

  lemma PowerAtMost(m: nat, n: nat)
    requires Pow2(m) <= Pow2(n)
    ensures m <= n
  {
    if m > n {
      PowersApart(n, m);
    }
  }

  lemma PowerBelow(j: nat, p: nat, x: nat)
    requires Pow2(p) < x <= Pow2(j)
    ensures p + 1 <= j
  {
    if j <= p {
      Pow2Monotone(j, p);
    }
  }

  /** The value, by the highest bit of x - 1: it overflows to 0 from bit 63 on. */
  lemma UpperPower2Value(x: nat, p: nat)
    requires 2 <= x < Words() && p < 64 && Pow2(p) <= x - 1 < Pow2(p + 1) && Bit(x - 1, p)
    ensures UpperPower2(x) == if p == 63 then 0 else Pow2(p + 1)
  {
    Smeared(x - 1, p);
    if p < 63 {
      PowersApart(p + 1, 64);
    }
  }

  lemma PowersApart(m: nat, n: nat)
    requires m < n
    ensures Pow2(m) < Pow2(n)
  {
    Pow2Monotone(m + 1, n);
  }

  lemma ZeroWraps(w: nat, p: nat)
    requires p < 64 && w == Pow2(p + 1)
    ensures Increment(SmearAll(Decrement(0, w)), w) == 0
  {
    AllOnesTop(p);
    Smeared(w - 1, p);
  }

  lemma UpperPower2Zero()
    ensures UpperPower2(0) == 0
  {
    ZeroWraps(Words(), 63);
  }

  lemma UpperPower2One()
    ensures UpperPower2(1) == 1
  {
    PowersApart(0, 64);
    SmearZero(1);
    SmearZero(2);
    SmearZero(4);
    SmearZero(8);
    SmearZero(16);
    SmearZero(32);
  }

  lemma {:induction false} AllOnesTop(p: nat)
    ensures Pow2(p) <= Pow2(p + 1) - 1 && Bit(Pow2(p + 1) - 1, p)
  {
    if p > 0 {
      assert (Pow2(p + 1) - 1) / 2 == Pow2(p) - 1;
      AllOnesTop(p - 1);
    }
  }

  /** The least power of two from x upwards, exactly when x is positive and that power has 64 bits. */
  lemma UpperPower2Least(x: nat)
    requires x < Words()
    ensures LeastPower(x, UpperPower2(x)) <==> 1 <= x <= Pow2(63)
    ensures !(1 <= x <= Pow2(63)) ==> UpperPower2(x) == 0
  {
    if x == 0 {
      UpperPower2Zero();
    } else if x == 1 {
      UpperPower2One();
      Pow2Monotone(0, 63);
      assert Pow2(0) == 1;
    } else {
      var p := TopBit(x - 1);
      if p >= 64 {
        Pow2Monotone(64, p);
      }
      UpperPower2Value(x, p);
      if p < 63 {
        LeastAbove(x, p);
        Pow2Monotone(p + 1, 63);
      }
    }
  }

  lemma LeastAbove(x: nat, p: nat)
    requires Pow2(p) < x <= Pow2(p + 1)
    ensures LeastPower(x, Pow2(p + 1))
  {
    forall j: nat | x <= Pow2(j) ensures p + 1 <= j {
      PowerBelow(j, p, x);
    }
  }

  // ---- the size of a filter ----

  /** The constructor's bucket count: a power of two, doubled when the load would exceed 0.96. */
  function BucketCount(keys: nat): nat
    requires keys / 4 < Words()
  {
    var n := UpperPower2(keys / 4);
    if 100 * keys > 96 * (4 * n) then 2 * n else n
  }

  /** Key counts for which there are buckets, at most 2^32 of them. */
  predicate Sizable(keys: nat) {
    4 <= keys < Words() && BucketCount(keys) <= Pow2(32)
  }

  /** The count takes the keys at a load of at most 0.96. */
  ghost predicate Takes(keys: nat, buckets: nat) {
    100 * keys <= 96 * (4 * buckets)
  }

  lemma DoubledTakes(keys: nat, p: nat)
    requires 4 <= keys && keys / 4 <= p
    ensures Takes(keys, 2 * p)
  {
  }

  /** The count before doubling is the least power of two not below a quarter of the keys. */
  lemma Undoubled(keys: nat) returns (m: nat)
    requires Sizable(keys)
    ensures keys / 4 <= Pow2(m) && forall i: nat :: keys / 4 <= Pow2(i) ==> m <= i
    ensures BucketCount(keys) == if Takes(keys, Pow2(m)) then Pow2(m) else Pow2(m + 1)
  {
    var x := keys / 4;
    assert Pow2(64) == 2 * Pow2(63);
    UpperPower2Least(x);
    m :| UpperPower2(x) == Pow2(m) && x <= Pow2(m) && forall i: nat :: x <= Pow2(i) ==> m <= i;
  }

  /** From four keys on the count is a power of two that takes the keys. */
  lemma BucketCountFits(keys: nat) returns (k: nat)
    requires Sizable(keys)
    ensures k <= 32 && BucketCount(keys) == Pow2(k) && Takes(keys, BucketCount(keys))
  {
    var m := Undoubled(keys);
    DoubledTakes(keys, Pow2(m));
    k := if Takes(keys, Pow2(m)) then m else m + 1;
    PowerAtMost(k, 32);
  }

  lemma TakesMore(keys: nat, p: nat, q: nat)
    requires Takes(keys, q)
    ensures keys / 4 <= q && (!Takes(keys, p) ==> p < q)
  {
  }

  lemma LeastDoubled(keys: nat, m: nat, k: nat, j: nat)
    requires forall i: nat :: keys / 4 <= Pow2(i) ==> m <= i
    requires Pow2(k) == (if Takes(keys, Pow2(m)) then Pow2(m) else Pow2(m + 1)) && Takes(keys, Pow2(j))
    ensures k <= j
  {
    TakesMore(keys, Pow2(m), Pow2(j));
    assert m <= j;
    if Takes(keys, Pow2(m)) {
      PowerAtMost(k, m);
    } else {
      PowerAtMost(k, m + 1);
    }
  }

  /** And no smaller power of two does: the count is the least one. */
  lemma BucketCountLeast(keys: nat, k: nat, j: nat)
    requires Sizable(keys) && BucketCount(keys) == Pow2(k)
    ensures Takes(keys, BucketCount(keys)) && (Takes(keys, Pow2(j)) ==> k <= j)
  {
    var m := Undoubled(keys);
    var fits := BucketCountFits(keys);
    if Takes(keys, Pow2(j)) {
      LeastDoubled(keys, m, k, j);
    }
  }

  /** With fewer keys there is no bucket at all. */
  lemma NoBuckets(keys: nat)
    requires keys < 4
    ensures keys / 4 < Words() && BucketCount(keys) == 0
  {
    UpperPower2Zero();
  }

  /** So from four keys on, and only then, the count is a power of two. */
  lemma BucketsFromFour(keys: nat) returns (k: nat)
    requires keys < Words() && BucketCount(keys) <= Pow2(32)
    ensures k <= 32 && (BucketCount(keys) == Pow2(k) <==> keys >= 4)
    ensures BucketCount(keys) == 0 <==> keys < 4
  {
    if keys < 4 {
      NoBuckets(keys);
      k := 0;
    } else {
      k := BucketCountFits(keys);
    }
  }
}
