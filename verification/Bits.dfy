/**
  Bits of natural numbers: bitwise or and exclusive or, shifts and powers of two,
  stated for every width.
 */
module Bits {

  function Pow2(k: nat): (p: nat)
    ensures p >= 1
  {
    if k == 0 then 1 else 2 * Pow2(k - 1)
  }

  function Bit(x: nat, i: nat): bool {
    if i == 0 then x % 2 == 1 else Bit(x / 2, i - 1)
  }

  /** x | y */
  function Or(x: nat, y: nat): nat {
    if x == 0 && y == 0 then 0
    else 2 * Or(x / 2, y / 2) + (if x % 2 == 1 || y % 2 == 1 then 1 else 0)
  }

  /** x ^ y */
  function Xor(x: nat, y: nat): nat {
    if x == 0 && y == 0 then 0
    else 2 * Xor(x / 2, y / 2) + (if x % 2 == y % 2 then 0 else 1)
  }

  /** x >> k */
  function Shr(x: nat, k: nat): nat {
    if k == 0 then x else Shr(x / 2, k - 1)
  }

  // ---- bit by bit ----

  lemma {:induction false} BitZero(i: nat)
    ensures !Bit(0, i)
  {
    if i > 0 {
      BitZero(i - 1);
    }
  }

  lemma {:induction false} BitOr(x: nat, y: nat, i: nat)
    ensures Bit(Or(x, y), i) <==> Bit(x, i) || Bit(y, i)
    decreases i
  {
    if x == 0 && y == 0 {
      BitZero(i);
    } else if i > 0 {
      assert Or(x, y) / 2 == Or(x / 2, y / 2);
      BitOr(x / 2, y / 2, i - 1);
    }
  }

  lemma {:induction false} BitShr(x: nat, k: nat, i: nat)
    ensures Bit(Shr(x, k), i) == Bit(x, k + i)
    decreases k
  {
    if k > 0 {
      BitShr(x / 2, k - 1, i);
    }
  }

  /** A number below 2^n has no bit from n on. */
  lemma {:induction false} BitHigh(x: nat, n: nat, i: nat)
    requires x < Pow2(n) && n <= i
    ensures !Bit(x, i)
    decreases n
  {
    if n == 0 {
      BitZero(i);
    } else {
      BitHigh(x / 2, n - 1, i - 1);
    }
  }

  /** A number without bits from n on is below 2^n. */
  lemma {:induction false} BitsBound(x: nat, n: nat)
    requires forall i :: n <= i ==> !Bit(x, i)
    ensures x < Pow2(n)
    decreases n, x
  {
    if x > 0 {
      forall i | n - 1 <= i && 0 <= i ensures !Bit(x / 2, i) {
        assert Bit(x, i + 1) == Bit(x / 2, i);
      }
      if n > 0 {
        BitsBound(x / 2, n - 1);
      } else {
        assert !Bit(x, 0);
        BitsBound(x / 2, 0);
      }
    }
  }

  /** All n low bits set, and no other, is 2^n - 1. */
  lemma {:induction false} AllOnes(x: nat, n: nat)
    requires x < Pow2(n) && forall i :: 0 <= i < n ==> Bit(x, i)
    ensures x == Pow2(n) - 1
    decreases n
  {
    if n > 0 {
      forall i | 0 <= i < n - 1 ensures Bit(x / 2, i) {
        assert Bit(x, i + 1);
      }
      AllOnes(x / 2, n - 1);
      assert Bit(x, 0);
    }
  }

  /** The highest bit of a positive number. */
  lemma {:induction false} TopBit(x: nat) returns (p: nat)
    requires x > 0
    ensures Pow2(p) <= x < Pow2(p + 1) && Bit(x, p)
    decreases x
  {
    if x == 1 {
      p := 0;
    } else {
      p := TopBit(x / 2);
      p := p + 1;
    }
  }

  lemma {:induction false} Pow2Monotone(m: nat, n: nat)
    requires m <= n
    ensures Pow2(m) <= Pow2(n)
    decreases n
  {
    if m < n {
      Pow2Monotone(m, n - 1);
    }
  }

  // ---- exclusive or ----

  lemma {:induction false} XorCancel(x: nat, y: nat)
    ensures Xor(Xor(x, y), y) == x
    decreases x + y
  {
    if x != 0 || y != 0 {
      var z := Xor(x, y);
      XorCancel(x / 2, y / 2);
      assert z / 2 == Xor(x / 2, y / 2) && (z % 2 == 0 <==> x % 2 == y % 2);
    }
  }

  lemma {:induction false} XorBound(x: nat, y: nat, k: nat)
    requires x < Pow2(k) && y < Pow2(k)
    ensures Xor(x, y) < Pow2(k)
    decreases k
  {
    if k > 0 {
      XorBound(x / 2, y / 2, k - 1);
    }
  }

  /** The k low bits of x. */
  function Low(x: nat, k: nat): nat {
    if k == 0 then 0 else 2 * Low(x / 2, k - 1) + x % 2
  }

  lemma {:induction false} XorLow(x: nat, y: nat, k: nat)
    ensures Low(Xor(x, y), k) == Xor(Low(x, k), Low(y, k))
    decreases k
  {
    if k > 0 {
      var z := Xor(x, y);
      XorLow(x / 2, y / 2, k - 1);
      assert z / 2 == Xor(x / 2, y / 2) && (z % 2 == 0 <==> x % 2 == y % 2);
      var a, b := Low(x, k), Low(y, k);
      assert a / 2 == Low(x / 2, k - 1) && b / 2 == Low(y / 2, k - 1) && a % 2 == x % 2 && b % 2 == y % 2;
    }
  }

  /** The k low bits are the remainder modulo 2^k. */
  lemma {:induction false} LowMod(x: nat, k: nat)
    ensures Low(x, k) == x % Pow2(k) < Pow2(k)
    decreases k
  {
    if k > 0 {
      var h, p := x / 2, Pow2(k - 1);
      LowMod(h, k - 1);
      DivMod(h, p);
      Distribute(h / p, p);
      RemainderUnique(x, 2 * p, h / p, Low(x, k));
    }
  }

  lemma Distribute(q: int, p: int)
    ensures q * (2 * p) == 2 * (q * p)
  {
  }

  lemma DivMod(x: int, d: int)
    requires d > 0
    ensures x == x / d * d + x % d && 0 <= x % d < d
  {
  }

  lemma AtLeast(t: int, d: int)
    requires t >= 1 && d > 0
    ensures t * d >= d
  {
  }

  lemma RemainderUnique(x: int, d: int, q: int, r: int)
    requires 0 < d && x == q * d + r && 0 <= r < d
    ensures x % d == r
  {
    var q' := x / d;
    DivMod(x, d);
    assert (q - q') * d == q * d - q' * d && (q' - q) * d == q' * d - q * d;
    if q > q' {
      AtLeast(q - q', d);
    } else if q < q' {
      AtLeast(q' - q, d);
    }
  }

  lemma Remainder(x: int, d: int, q: int, r: int)
    requires 0 < d && x == q * d + r && 0 <= r < d
    ensures x % d == r && x / d == q
  {
    RemainderUnique(x, d, q, r);
    DivMod(x, d);
    assert (x / d - q) * d == 0;
  }

  lemma SameRemainder(x: int, y: int, p: nat)
    requires p > 0
    ensures x % p == y % p <==> (x - y) % p == 0
  {
    DivMod(x, p);
    DivMod(y, p);
    if x % p == y % p {
      assert x - y == (x / p - y / p) * p by {
        assert (x / p - y / p) * p == x / p * p - y / p * p;
      }
      Remainder(x - y, p, x / p - y / p, 0);
    }
    if (x - y) % p == 0 {
      DivMod(x - y, p);
      var q := (x - y) / p;
      assert (y / p + q) * p == y / p * p + q * p;
      Remainder(x, p, y / p + q, y % p);
    }
  }

  lemma {:induction false} Pow2Add(m: nat, n: nat)
    ensures Pow2(m + n) == Pow2(m) * Pow2(n)
    decreases m
  {
    if m > 0 {
      Pow2Add(m - 1, n);
      assert Pow2(m) * Pow2(n) == 2 * (Pow2(m - 1) * Pow2(n));
    }
  }

  // ---- splitting at bit w ----

  lemma {:induction false} ShrDiv(x: nat, w: nat)
    ensures Shr(x, w) == x / Pow2(w)
    decreases w
  {
    if w > 0 {
      var h, p := x / 2, Pow2(w - 1);
      ShrDiv(h, w - 1);
      DivMod(h, p);
      Distribute(h / p, p);
      Remainder(x, 2 * p, h / p, 2 * (h % p) + x % 2);
    }
  }

  lemma {:induction false} XorShr(x: nat, y: nat, w: nat)
    ensures Shr(Xor(x, y), w) == Xor(Shr(x, w), Shr(y, w))
    decreases w
  {
    if w > 0 {
      assert Xor(x, y) / 2 == Xor(x / 2, y / 2);
      XorShr(x / 2, y / 2, w - 1);
    }
  }

  lemma NonNegative(x: nat, d: nat)
    requires d > 0
    ensures x / d >= 0 && x % d >= 0
  {
  }

  /** Exclusive or works on the low w bits and on the rest separately. */
  lemma XorSplit(xh: nat, xl: nat, yh: nat, yl: nat, w: nat)
    requires xl < Pow2(w) && yl < Pow2(w)
    ensures Xor(xh * Pow2(w) + xl, yh * Pow2(w) + yl) % Pow2(w) == Xor(xl, yl)
    ensures Xor(xh * Pow2(w) + xl, yh * Pow2(w) + yl) / Pow2(w) == Xor(xh, yh)
  {
    var p := Pow2(w);
    var x, y := xh * p + xl, yh * p + yl;
    Remainder(x, p, xh, xl);
    Remainder(y, p, yh, yl);
    XorLow(x, y, w);
    LowMod(x, w);
    LowMod(y, w);
    LowMod(Xor(x, y), w);
    XorShr(x, y, w);
    ShrDiv(x, w);
    ShrDiv(y, w);
    ShrDiv(Xor(x, y), w);
  }

  lemma {:induction false} XorSelf(x: nat)
    ensures Xor(x, x) == 0 && Xor(0, x) == x
    decreases x
  {
    if x > 0 {
      XorSelf(x / 2);
    }
  }

  lemma XorZero(x: nat, y: nat)
    ensures Xor(x, y) == 0 <==> x == y
  {
    XorCancel(x, y);
    XorSelf(x);
    XorSelf(y);
  }

  /** Reducing modulo 2^k keeps the low w bits and what lies between. */
  lemma ModSplit(x: int, k: nat, w: nat)
    requires w <= k
    ensures x % Pow2(k) % Pow2(w) == x % Pow2(w)
    ensures x % Pow2(k) / Pow2(w) == x / Pow2(w) % Pow2(k - w)
  {
    Pow2Add(w, k - w);
    ModProduct(x, Pow2(w), Pow2(k - w));
  }

  lemma ModProduct(x: int, p: int, q: int)
    requires p > 0 && q > 0
    ensures p * q > 0 && x % (p * q) % p == x % p && x % (p * q) / p == x / p % q
  {
    var h := x / p;
    DivMod(x, p);
    DivMod(h, q);
    Regroup(h / q, h % q, x % p, p, q);
    AtMost(h % q, q, p);
    Remainder(x, p * q, h / q, h % q * p + x % p);
    Remainder(h % q * p + x % p, p, h % q, x % p);
  }

  lemma Regroup(a: int, b: int, c: int, p: int, q: int)
    ensures (a * q + b) * p + c == a * (p * q) + (b * p + c)
  {
    assert (a * q + b) * p == a * q * p + b * p;
    assert a * q * p == a * (p * q);
  }

  lemma AtMost(t: int, q: int, p: int)
    requires 0 <= t < q && p > 0
    ensures 0 <= t * p <= p * q - p
  {
    assert (q - 1 - t) * p >= 0;
    assert (q - 1 - t) * p == p * q - p - t * p;
  }
}
