/** Tags of two bits, four to a byte: the write only sets bits, so a tag is joined to the old one. */
module TwoBitTags {
  import opened Bits

  function ReadTag(b: nat, j: nat): (t: nat) {
    Shr(b, 2 * j) % 4
  }

  /** The byte with the low bits of t set at tag j. */
  function WriteTag(b: nat, j: nat, t: nat): nat {
    Or(b, t % 4 * Pow2(2 * j))
  }

  lemma OrHalves(x: nat, y: nat)
    ensures Or(x, y) / 2 == Or(x / 2, y / 2)
    ensures Or(x, y) % 2 == if x % 2 == 1 || y % 2 == 1 then 1 else 0
  {
  }

  lemma OrZero(x: nat)
    ensures Or(x, 0) == x
  {
    if x > 0 {
      OrZero(x / 2);
    }
  }

  /** Whether a bit of one of the two is set. */
  function Either(x: nat, y: nat): nat {
    if x % 2 == 1 || y % 2 == 1 then 1 else 0
  }

  lemma OrLow(x: nat, y: nat)
    ensures Or(x, y) == 4 * Or(x / 4, y / 4) + (2 * Either(x / 2, y / 2) + Either(x, y))
  {
    OrHalves(x, y);
    OrHalves(x / 2, y / 2);
    assert x / 2 / 2 == x / 4 && y / 2 / 2 == y / 4;
  }

  lemma OrSmall(x: nat, y: nat)
    requires x < 4 && y < 4
    ensures Or(x, y) == 2 * Either(x / 2, y / 2) + Either(x, y)
  {
    OrLow(x, y);
  }

  lemma EitherLow(x: nat, y: nat)
    ensures Either(x % 4, y % 4) == Either(x, y) && Either(x % 4 / 2, y % 4 / 2) == Either(x / 2, y / 2)
  {
  }

  lemma Quarter(x: nat, q: nat, r: nat)
    requires r < 4 && x == 4 * q + r
    ensures x / 4 == q && x % 4 == r
  {
  }

  /** The lowest tag and the others. */
  lemma OrQuarters(x: nat, y: nat)
    ensures Or(x, y) / 4 == Or(x / 4, y / 4) && Or(x, y) % 4 == Or(x % 4, y % 4)
  {
    OrLow(x, y);
    OrSmall(x % 4, y % 4);
    EitherLow(x, y);
    Quarter(Or(x, y), Or(x / 4, y / 4), 2 * Either(x / 2, y / 2) + Either(x, y));
  }

  lemma NextTag(b: nat, j: nat)
    requires j > 0
    ensures ReadTag(b, j) == ReadTag(b / 4, j - 1)
  {
    assert Shr(b, 2 * j) == Shr(b / 2 / 2, 2 * j - 2);
  }

  lemma Fourfold(n: nat, p: nat)
    ensures n * (4 * p) == 4 * (n * p)
  {
  }

  lemma Placed(n: nat, j: nat)
    requires j > 0
    ensures n * Pow2(2 * j) == 4 * (n * Pow2(2 * j - 2))
  {
    assert Pow2(2 * j) == 2 * Pow2(2 * j - 1);
    assert Pow2(2 * j - 1) == 2 * Pow2(2 * j - 2);
    Fourfold(n, Pow2(2 * j - 2));
  }

  /** Tag j becomes the union of the old and the new; the others stay. */
  lemma {:induction false} Joined(b: nat, j: nat, t: nat, k: nat)
    ensures ReadTag(WriteTag(b, j, t), k) == if k == j then Or(ReadTag(b, j), t % 4) else ReadTag(b, k)
    decreases j
  {
    var n := t % 4;
    var m := n * Pow2(2 * j);
    OrQuarters(b, m);
    OrZero(b / 4);
    OrZero(b % 4);
    if k > 0 {
      NextTag(WriteTag(b, j, t), k);
      NextTag(b, k);
    }
    if j > 0 {
      Placed(n, j);
      assert m / 4 == n * Pow2(2 * j - 2) && 2 * (j - 1) == 2 * j - 2 && m % 4 == 0;
      if k > 0 {
        Joined(b / 4, j - 1, t, k - 1);
      }
    }
  }

  /** Every bit of x is one of y. */
  ghost predicate Within(x: nat, y: nat) {
    forall i :: Bit(x, i) ==> Bit(y, i)
  }

  lemma OrAbsorbs(x: nat, y: nat)
    requires x < 4 && y < 4
    ensures Or(x, y) == y <==> Within(x, y)
  {
    if Or(x, y) == y {
      forall i | Bit(x, i) ensures Bit(y, i) {
        BitOr(x, y, i);
      }
    }
    if Within(x, y) {
      assert Bit(x, 0) ==> Bit(y, 0);
      assert Bit(x, 1) ==> Bit(y, 1);
      OrHalves(x, y);
      OrHalves(x / 2, y / 2);
    }
  }

  /** The tag reads back as written exactly when the old tag has no bit outside it. */
  lemma ReadsBack(b: nat, j: nat, t: nat)
    ensures ReadTag(WriteTag(b, j, t), j) == t % 4 <==> Within(ReadTag(b, j), t % 4)
  {
    Joined(b, j, t, j);
    OrAbsorbs(ReadTag(b, j), t % 4);
  }

  /** Clearing a tag changes nothing. */
  lemma NeverCleared(b: nat, j: nat)
    ensures WriteTag(b, j, 0) == b
  {
    OrZero(b);
  }

  /** Four tags stay in their byte. */
  lemma StaysByte(b: nat, j: nat, t: nat)
    requires b < 256 && j < 4
    ensures WriteTag(b, j, t) < 256
  {
    var m := t % 4 * Pow2(2 * j);
    assert Pow2(2 * j) <= 64 by {
      Pow2Monotone(2 * j, 6);
    }
    assert m < 256 && Pow2(8) == 256;
    forall i | 8 <= i ensures !Bit(Or(b, m), i) {
      BitOr(b, m, i);
      BitHigh(b, 8, i);
      BitHigh(m, 8, i);
    }
    BitsBound(Or(b, m), 8);
  }
}
