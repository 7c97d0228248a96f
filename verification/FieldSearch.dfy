/**
  The hasvalue macros: one subtraction and two masks find out whether any of four packed
  fields has a given value. A borrow starts only at a field that is zero, so the answer
  is exact, for every field width and whatever stands above the four fields.
 */
module FieldSearch {
  import opened Bits

  /** One of the m lowest fields of x, in base 2^w, is n. */
  predicate HasField(w: nat, x: int, n: nat, m: nat)
    decreases m
  {
    m > 0 && (x % Pow2(w) == n || HasField(w, x / Pow2(w), n, m - 1))
  }

  /** 1 in each of the m lowest fields. */
  function Ones(w: nat, m: nat): nat {
    if m == 0 then 0 else 1 + Pow2(w) * Ones(w, m - 1)
  }

  /** Some field has its top bit set in y and clear in x: y & ~x & tops is not zero. */
  predicate TopRises(w: nat, x: int, y: int, m: nat)
    decreases m
  {
    m > 0 && ((2 * (y % Pow2(w)) >= Pow2(w) > 2 * (x % Pow2(w))) || TopRises(w, x / Pow2(w), y / Pow2(w), m - 1))
  }

  lemma MinusOnes(w: nat, x: int, m: nat)
    requires w > 0 && m > 0
    ensures x % Pow2(w) == 0 ==> (x - Ones(w, m)) % Pow2(w) == Pow2(w) - 1
    ensures x % Pow2(w) > 0 ==> (x - Ones(w, m)) % Pow2(w) == x % Pow2(w) - 1
    ensures x % Pow2(w) > 0 ==> (x - Ones(w, m)) / Pow2(w) == x / Pow2(w) - Ones(w, m - 1)
  {
    var p := Pow2(w);
    var h, r, o := x / p, x % p, Ones(w, m - 1);
    DivMod(x, p);
    assert (h - o) * p == h * p - o * p && (h - o - 1) * p == h * p - o * p - p;
    if r == 0 {
      Remainder(x - Ones(w, m), p, h - o - 1, p - 1);
    } else {
      Remainder(x - Ones(w, m), p, h - o, r - 1);
    }
  }

  /** The test for a zero field is exact. */
  lemma {:induction false} HasZeroExact(w: nat, x: int, m: nat)
    requires w > 0
    ensures TopRises(w, x, x - Ones(w, m), m) <==> HasField(w, x, 0, m)
    decreases m
  {
    if m > 0 {
      MinusOnes(w, x, m);
      HasZeroExact(w, x / Pow2(w), m - 1);
    }
  }

  /** Arithmetic modulo 2^k does not disturb the fields below bit k. */
  lemma {:induction false} TopRisesModulo(w: nat, x: int, y: int, k: nat, m: nat)
    requires m * w <= k
    ensures TopRises(w, x, y % Pow2(k), m) == TopRises(w, x, y, m)
    decreases m
  {
    if m > 0 {
      assert m * w == w + (m - 1) * w && (m - 1) * w >= 0;
      ModSplit(y, k, w);
      TopRisesModulo(w, x / Pow2(w), y / Pow2(w), k - w, m - 1);
    }
  }

  /** Where x has the field n, x ^ nnnn has a zero field. */
  lemma {:induction false} XorFields(w: nat, x: nat, n: nat, m: nat)
    requires n < Pow2(w)
    ensures HasField(w, Xor(x, Ones(w, m) * n), 0, m) <==> HasField(w, x, n, m)
    decreases m
  {
    if m > 0 {
      var p, o := Pow2(w), Ones(w, m - 1);
      NonNegative(x, p);
      DivMod(x, p);
      var h, l := x / p, x % p;
      assert Ones(w, m) * n == o * n * p + n;
      XorSplit(h, l, o * n, n, w);
      XorZero(l, n);
      XorFields(w, h, n, m - 1);
    }
  }

  /** hasvalue(x, n) on 64-bit x with m fields of w bits: haszero(x ^ nn...n) is not zero. */
  predicate HasValueIn(w: nat, x: nat, n: nat, m: nat) {
    var z := Xor(x, Ones(w, m) * n);
    TopRises(w, z, (z - Ones(w, m)) % Pow2(64), m)
  }

  predicate HasValue(w: nat, x: nat, n: nat) {
    HasValueIn(w, x, n, 4)
  }

  lemma HasZeroExact64(w: nat, z: int, m: nat)
    requires w > 0 && w * m <= 64
    ensures TopRises(w, z, (z - Ones(w, m)) % Pow2(64), m) <==> HasField(w, z, 0, m)
  {
    TopRisesModulo(w, z, z - Ones(w, m), 64, m);
    HasZeroExact(w, z, m);
  }

  /** The macros answer exactly, for as many fields as the word has. */
  lemma HasValueFields(w: nat, x: nat, n: nat, m: nat)
    requires w > 0 && w * m <= 64 && n < Pow2(w)
    ensures HasValueIn(w, x, n, m) <==> HasField(w, x, n, m)
  {
    XorFields(w, x, n, m);
    HasZeroExact64(w, Xor(x, Ones(w, m) * n), m);
  }

  lemma HasValueExact(w: nat, x: nat, n: nat)
    requires 0 < w <= 16 && n < Pow2(w)
    ensures HasValue(w, x, n) <==> HasField(w, x, n, 4)
  {
    HasValueFields(w, x, n, 4);
  }
}
