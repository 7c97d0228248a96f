/** How the halves of a key's hash become a bucket and a tag, and which tags share a pair of buckets. */
module CuckooHashing {
  import opened Bits
  import opened Packing
  import opened CuckooEntries

  function IndexHash(n: nat, hv: nat): (i: nat)
    requires n > 0
    ensures i < n
  {
    hv % n
  }

  /** The low bits of the hash, with 1 in the place of 0. */
  function TagHash(w: Width, hv: nat): (t: nat)
    ensures 0 < t < Base(w)
  {
    var t := hv % Base(w);
    if t == 0 then 1 else t
  }

  /** Buckets follow one another in turn as the hash grows. */
  lemma IndexHashTurns(n: nat, q: nat, i: nat)
    requires i < n
    ensures IndexHash(n, q * n + i) == i
  {
    Remainder(q * n + i, n, q, i);
  }

  /** Different low bits give different tags, except for 0 and 1. */
  lemma TagHashSeparates(w: Width, a: nat, b: nat)
    ensures TagHash(w, a) == TagHash(w, b) <==>
      a % Base(w) == b % Base(w) || (a % Base(w) <= 1 && b % Base(w) <= 1)
  {
  }

  // ---- the alternate bucket ----

  lemma {:induction false} XorInjective(x: nat, a: nat, b: nat)
    requires Xor(x, a) == Xor(x, b)
    ensures a == b
    decreases x + a + b
  {
    if x != 0 || a != 0 || b != 0 {
      XorParts(x, a);
      XorParts(x, b);
      XorInjective(x / 2, a / 2, b / 2);
    }
  }

  lemma XorParts(x: nat, a: nat)
    ensures Xor(x, a) / 2 == Xor(x / 2, a / 2) && (Xor(x, a) % 2 == 0 <==> x % 2 == a % 2)
  {
  }

  lemma Halved(x: int, p: nat)
    requires p > 0 && (2 * x) % (2 * p) == 0
    ensures x % p == 0
  {
    var q := 2 * x / (2 * p);
    DivMod(2 * x, 2 * p);
    Distribute(q, p);
    Remainder(x, p, q, 0);
  }

  lemma Doubled(x: int, p: nat)
    requires p > 0 && x % p == 0
    ensures (2 * x) % (2 * p) == 0
  {
    DivMod(x, p);
    Distribute(x / p, p);
    Remainder(2 * x, 2 * p, x / p, 0);
  }

  lemma OddProduct(d: int, c: int)
    requires c % 2 == 1
    ensures d * c % 2 == d % 2
  {
    var e, r := d / 2, d % 2;
    assert d * c == (2 * e + r) * c;
    assert (2 * e + r) * c == 2 * (e * c) + r * c;
  }

  lemma EvenProduct(d: int, c: int)
    requires c % 2 == 1 && d * c % 2 == 0
    ensures d % 2 == 0 && d == 2 * (d / 2) && d * c == 2 * (d / 2 * c)
  {
    OddProduct(d, c);
    assert d / 2 * 2 * c == 2 * (d / 2 * c);
  }

  lemma PowerEven(x: int, k: nat)
    requires k > 0 && x % Pow2(k) == 0
    ensures x % 2 == 0
  {
    var q, p := x / Pow2(k), Pow2(k - 1);
    DivMod(x, Pow2(k));
    Distribute(q, p);
  }

  /** An odd factor does not matter to divisibility by a power of two. */
  lemma {:induction false} OddFactor(k: nat, d: int, c: int)
    requires c % 2 == 1 && d * c % Pow2(k) == 0
    ensures d % Pow2(k) == 0
    decreases k
  {
    if k > 0 {
      PowerEven(d * c, k);
      EvenProduct(d, c);
      Halved(d / 2 * c, Pow2(k - 1));
      OddFactor(k - 1, d / 2, c);
      Doubled(d / 2, Pow2(k - 1));
    }
  }

  /** Multiplying by an odd number keeps remainders modulo a power of two apart. */
  lemma OddMultiplier(k: nat, a: int, b: int, c: int)
    requires c % 2 == 1
    ensures a * c % Pow2(k) == b * c % Pow2(k) <==> a % Pow2(k) == b % Pow2(k)
  {
    var p := Pow2(k);
    SameRemainder(a * c, b * c, p);
    SameRemainder(a, b, p);
    assert a * c - b * c == (a - b) * c;
    if (a - b) * c % p == 0 {
      OddFactor(k, a - b, c);
    }
    if (a - b) % p == 0 {
      var q := (a - b) / p;
      DivMod(a - b, p);
      assert q * p * c == q * c * p;
      Remainder((a - b) * c, p, q * c, 0);
    }
  }

  /** From one bucket, two tags go to the same other bucket exactly when they agree modulo the number of buckets. */
  lemma AltIndexSeparates(k: nat, index: nat, a: nat, b: nat)
    requires k <= 32 && index < Pow2(k)
    ensures AltIndex(Pow2(k), index, a) == AltIndex(Pow2(k), index, b) <==> a % Pow2(k) == b % Pow2(k)
  {
    AltIndexLow(k, index, a);
    AltIndexLow(k, index, b);
    ModSplit(a * HASH_CONSTANT, 32, k);
    ModSplit(b * HASH_CONSTANT, 32, k);
    OddMultiplier(k, a, b, HASH_CONSTANT);
    var x, y := a * HASH_CONSTANT % Pow2(32) % Pow2(k), b * HASH_CONSTANT % Pow2(32) % Pow2(k);
    if Xor(index, x) == Xor(index, y) {
      XorInjective(index, x, y);
    }
  }

  /** A tag's two buckets are one exactly when it is divisible by the number of buckets. */
  lemma AltIndexSame(k: nat, index: nat, tag: nat)
    requires k <= 32 && index < Pow2(k)
    ensures AltIndex(Pow2(k), index, tag) == index <==> tag % Pow2(k) == 0
  {
    AltIndexSeparates(k, index, tag, 0);
    Remainder(0, Pow2(k), 0, 0);
    AltIndexLow(k, index, 0);
    Remainder(0, Pow2(32), 0, 0);
    XorZeroRight(index);
  }

  lemma {:induction false} XorZeroRight(x: nat)
    ensures Xor(x, 0) == x
  {
    if x > 0 {
      XorZeroRight(x / 2);
    }
  }
}
