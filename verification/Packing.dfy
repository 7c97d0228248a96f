/**
  Four tags packed into the bytes of a bucket, for tags of 4, 8, 12, 16 and 32 bits.
  Masks and shifts of single bytes and halves are written as quotients and remainders;
  16-, 32- and 64-bit accesses are little-endian.
 */
module Packing {
  import opened Bits
  import opened FieldSearch

  type Byte = x: int | 0 <= x < 256 witness 0

  datatype Width = W4 | W8 | W12 | W16 | W32

  function TagBits(w: Width): nat {
    match w
    case W4 => 4
    case W8 => 8
    case W12 => 12
    case W16 => 16
    case W32 => 32
  }

  /** The number of tag values. */
  function Base(w: Width): nat {
    match w
    case W4 => 16
    case W8 => 256
    case W12 => 4096
    case W16 => 65536
    case W32 => 4294967296
  }

  lemma BaseIsPower(w: Width)
    ensures Base(w) == Pow2(TagBits(w))
  {
    assert Pow2(4) == 16;
    Pow2Add(4, 4);
    Pow2Add(8, 4);
    Pow2Add(8, 8);
    Pow2Add(16, 16);
  }

  function BucketBytes(w: Width): nat {
    TagBits(w) / 2
  }

  type Bucket = seq<Byte>

  predicate Fits(w: Width, b: Bucket) {
    |b| == BucketBytes(w)
  }

  function Half(b: Bucket, p: nat): (h: nat)
    requires p + 1 < |b|
    ensures h < 65536
  {
    (b[p] as int) + 256 * (b[p + 1] as int)
  }

  function PutHalf(b: Bucket, p: nat, v: nat): (r: Bucket)
    requires p + 1 < |b| && v < 65536
    ensures |r| == |b|
  {
    b[p := v % 256][p + 1 := v / 256]
  }

  function Word(b: Bucket, p: nat): (v: nat)
    requires p + 3 < |b|
  {
    Half(b, p) + 65536 * Half(b, p + 2)
  }

  function ReadTag(w: Width, b: Bucket, j: nat): nat
    requires Fits(w, b) && j < 4
  {
    match w
    case W4 => if j % 2 == 0 then b[j / 2] % 16 else b[j / 2] / 16
    case W8 => b[j]
    case W12 => if j % 2 == 0 then Half(b, j + j / 2) % 4096 else Half(b, j + j / 2) / 16
    case W16 => Half(b, 2 * j)
    case W32 => Word(b, 4 * j)
  }

  /** Write the low bits of t over tag j. */
  function WriteTag(w: Width, b: Bucket, j: nat, t: nat): (r: Bucket)
    requires Fits(w, b) && j < 4
    ensures Fits(w, r)
  {
    var n := t % Base(w);
    match w
    case W4 =>
      var x := b[j / 2];
      b[j / 2 := if j % 2 == 0 then x / 16 * 16 + n else x % 16 + 16 * n]
    case W8 => b[j := n]
    case W12 =>
      var p := j + j / 2;
      var x := Half(b, p);
      PutHalf(b, p, if j % 2 == 0 then x / 4096 * 4096 + n else x % 16 + 16 * n)
    case W16 => PutHalf(b, 2 * j, n)
    case W32 => PutHalf(PutHalf(b, 4 * j, n % 65536), 4 * j + 2, n / 65536)
  }

  lemma TagBound(w: Width, b: Bucket, j: nat)
    requires Fits(w, b) && j < 4
    ensures 0 <= ReadTag(w, b, j) < Base(w)
  {
  }

  // ---- reading what was written ----

  lemma WrittenHalf(b: Bucket, p: nat, v: nat, q: nat)
    requires p + 1 < |b| && q + 1 < |b| && v < 65536
    ensures Half(PutHalf(b, p, v), p) == v
    ensures q + 1 < p || p + 1 < q ==> Half(PutHalf(b, p, v), q) == Half(b, q)
  {
  }

  lemma Written4(b: Bucket, j: nat, t: nat, k: nat)
    requires Fits(W4, b) && j < 4 && k < 4
    ensures ReadTag(W4, WriteTag(W4, b, j, t), k) == if k == j then t % 16 else ReadTag(W4, b, k)
  {
  }

  // Two 12-bit tags share the middle one of three bytes: the first has its low half,
  // the second its high half.

  lemma Split12(x: int, y: int)
    requires 0 <= x < 256 && 0 <= y < 256
    ensures (x + 256 * y) % 4096 == x + 256 * (y % 16)
    ensures (x + 256 * y) / 16 == x / 16 + 16 * y && (x + 256 * y) % 16 == x % 16
    ensures (x + 256 * y) / 4096 == y / 16
  {
  }

  /** The bytes after writing the first tag. */
  lemma Store12First(y: int, n: int)
    requires 0 <= y < 256 && 0 <= n < 4096
    ensures 0 <= y / 16 * 4096 + n < 65536
    ensures (y / 16 * 4096 + n) % 256 == n % 256 && (y / 16 * 4096 + n) / 256 == y / 16 * 16 + n / 256
    ensures (y / 16 * 16 + n / 256) % 16 == n / 256 && (y / 16 * 16 + n / 256) / 16 == y / 16
  {
  }

  /** The bytes after writing the second tag. */
  lemma Store12Second(y: int, n: int)
    requires 0 <= y < 256 && 0 <= n < 4096
    ensures 0 <= y % 16 + 16 * n < 65536
    ensures (y % 16 + 16 * n) % 256 == y % 16 + 16 * (n % 16) && (y % 16 + 16 * n) / 256 == n / 16
    ensures (y % 16 + 16 * (n % 16)) % 16 == y % 16 && (y % 16 + 16 * (n % 16)) / 16 == n % 16
  {
  }

  lemma Stored12First(b: Bucket, j: nat, t: nat)
    requires Fits(W12, b) && (j == 0 || j == 2)
    ensures var p, n := j + j / 2, t % 4096;
      WriteTag(W12, b, j, t) == b[p := n % 256][p + 1 := b[p + 1] / 16 * 16 + n / 256]
  {
    var p := j + j / 2;
    Split12(b[p], b[p + 1]);
    Store12First(b[p + 1], t % 4096);
  }

  lemma Stored12Second(b: Bucket, j: nat, t: nat)
    requires Fits(W12, b) && (j == 1 || j == 3)
    ensures var p, n := j + j / 2, t % 4096;
      WriteTag(W12, b, j, t) == b[p := b[p] % 16 + 16 * (n % 16)][p + 1 := n / 16]
  {
    var p := j + j / 2;
    Split12(b[p], b[p + 1]);
    Store12Second(b[p], t % 4096);
  }

  lemma FirstRead(y: int, n: int)
    requires 0 <= y < 256 && 0 <= n < 4096
    ensures (n % 256 + 256 * (y / 16 * 16 + n / 256)) % 4096 == n
  {
    Store12First(y, n);
    Split12(n % 256, y / 16 * 16 + n / 256);
  }

  lemma SecondKept(y: int, m: int, z: int)
    requires 0 <= y < 256 && 0 <= m < 16 && 0 <= z < 256
    ensures ((y / 16 * 16 + m) + 256 * z) / 16 == (y + 256 * z) / 16
  {
    Split12(y / 16 * 16 + m, z);
    Split12(y, z);
  }

  lemma SecondRead(y: int, n: int)
    requires 0 <= y < 256 && 0 <= n < 4096
    ensures ((y % 16 + 16 * (n % 16)) + 256 * (n / 16)) / 16 == n
  {
    Store12Second(y, n);
    Split12(y % 16 + 16 * (n % 16), n / 16);
  }

  lemma FirstKept(x: int, y: int, m: int)
    requires 0 <= x < 256 && 0 <= y < 256 && 0 <= m < 16
    ensures (x + 256 * (y % 16 + 16 * m)) % 4096 == (x + 256 * y) % 4096
  {
    Split12(x, y % 16 + 16 * m);
    Split12(x, y);
  }

  lemma ReadStored12First(b: Bucket, j: nat, n: nat, c: Bucket, k: nat)
    requires Fits(W12, b) && (j == 0 || j == 2) && k < 4 && n < 4096
    requires c == b[j + j / 2 := n % 256][j + j / 2 + 1 := b[j + j / 2 + 1] / 16 * 16 + n / 256]
    ensures ReadTag(W12, c, k) == if k == j then n else ReadTag(W12, b, k)
  {
    var p := j + j / 2;
    if k == j {
      FirstRead(b[p + 1], n);
    } else if k == j + 1 {
      SecondKept(b[p + 1], n / 256, b[p + 2]);
    }
  }

  lemma ReadStored12Second(b: Bucket, j: nat, n: nat, c: Bucket, k: nat)
    requires Fits(W12, b) && (j == 1 || j == 3) && k < 4 && n < 4096
    requires c == b[j + j / 2 := b[j + j / 2] % 16 + 16 * (n % 16)][j + j / 2 + 1 := n / 16]
    ensures ReadTag(W12, c, k) == if k == j then n else ReadTag(W12, b, k)
  {
    var p := j + j / 2;
    if k == j {
      SecondRead(b[p], n);
    } else if k == j - 1 {
      FirstKept(b[p - 1], b[p], n % 16);
    }
  }

  lemma Written12(b: Bucket, j: nat, t: nat, k: nat)
    requires Fits(W12, b) && j < 4 && k < 4
    ensures ReadTag(W12, WriteTag(W12, b, j, t), k) == if k == j then t % 4096 else ReadTag(W12, b, k)
  {
    if j % 2 == 0 {
      Stored12First(b, j, t);
      ReadStored12First(b, j, t % 4096, WriteTag(W12, b, j, t), k);
    } else {
      Stored12Second(b, j, t);
      ReadStored12Second(b, j, t % 4096, WriteTag(W12, b, j, t), k);
    }
  }

  lemma Written32(b: Bucket, j: nat, t: nat, k: nat)
    requires Fits(W32, b) && j < 4 && k < 4
    ensures ReadTag(W32, WriteTag(W32, b, j, t), k) == if k == j then t % 4294967296 else ReadTag(W32, b, k)
  {
  }

  /** A write changes the tag it names, to the given value's low bits, and no other. */
  lemma ReadWritten(w: Width, b: Bucket, j: nat, t: nat, k: nat)
    requires Fits(w, b) && j < 4 && k < 4
    ensures ReadTag(w, WriteTag(w, b, j, t), k) == if k == j then t % Base(w) else ReadTag(w, b, k)
  {
    match w
    case W4 => Written4(b, j, t, k);
    case W8 =>
    case W12 => Written12(b, j, t, k);
    case W16 => WrittenHalf(b, 2 * j, t % 65536, 2 * k);
    case W32 => Written32(b, j, t, k);
  }

  // ---- searching a bucket in one go ----

  /** The number read at a bucket, little-endian: its bytes, and above them whatever follows in memory. */
  function Window(w: Width, b: Bucket, beyond: nat): nat
    requires Fits(w, b) && w != W32
  {
    match w
    case W4 => Half(b, 0) + 65536 * beyond
    case W8 => Half(b, 0) + 65536 * (Half(b, 2) + 65536 * beyond)
    case W12 => Half(b, 0) + 65536 * (Half(b, 2) + 65536 * (Half(b, 4) + 65536 * beyond))
    case W16 => Half(b, 0) + 65536 * (Half(b, 2) + 65536 * (Half(b, 4) + 65536 * (Half(b, 6) + 65536 * beyond)))
  }

  lemma WindowFields4(b: Bucket, beyond: nat)
    requires Fits(W4, b)
    ensures Window(W4, b, beyond) ==
      ReadTag(W4, b, 0) + 16 * (ReadTag(W4, b, 1) + 16 * (ReadTag(W4, b, 2) + 16 * (ReadTag(W4, b, 3) + 16 * beyond)))
  {
  }

  lemma WindowFields8(b: Bucket, beyond: nat)
    requires Fits(W8, b)
    ensures Window(W8, b, beyond) ==
      ReadTag(W8, b, 0) + 256 * (ReadTag(W8, b, 1) +
        256 * (ReadTag(W8, b, 2) + 256 * (ReadTag(W8, b, 3) + 256 * beyond)))
  {
  }

  lemma WindowFields12(b: Bucket, beyond: nat)
    requires Fits(W12, b)
    ensures Window(W12, b, beyond) ==
      ReadTag(W12, b, 0) + 4096 * (ReadTag(W12, b, 1) +
        4096 * (ReadTag(W12, b, 2) + 4096 * (ReadTag(W12, b, 3) + 4096 * beyond)))
  {
    Split12(b[0], b[1]);
    Split12(b[1], b[2]);
    Split12(b[3], b[4]);
    Split12(b[4], b[5]);
  }

  /** The tags are the fields of that number. */
  lemma WindowFields(w: Width, b: Bucket, beyond: nat)
    requires Fits(w, b) && w != W32
    ensures Window(w, b, beyond) ==
      ReadTag(w, b, 0) + Base(w) * (ReadTag(w, b, 1) +
        Base(w) * (ReadTag(w, b, 2) + Base(w) * (ReadTag(w, b, 3) + Base(w) * beyond)))
  {
    match w
    case W4 => WindowFields4(b, beyond);
    case W8 => WindowFields8(b, beyond);
    case W12 => WindowFields12(b, beyond);
    case W16 =>
  }

  lemma FieldStep(w: nat, x: nat, t: nat, rest: nat, n: nat, m: nat)
    requires t < Pow2(w) && m > 0 && x == t + Pow2(w) * rest
    ensures HasField(w, x, n, m) <==> t == n || HasField(w, rest, n, m - 1)
  {
    Remainder(x, Pow2(w), rest, t);
  }

  predicate Holds(w: Width, b: Bucket, t: nat)
    requires Fits(w, b)
  {
    ReadTag(w, b, 0) == t || ReadTag(w, b, 1) == t || ReadTag(w, b, 2) == t || ReadTag(w, b, 3) == t
  }

  /** The macros for the narrow widths, one tag after the other for 32 bits. */
  predicate FindTag(w: Width, b: Bucket, beyond: nat, t: nat)
    requires Fits(w, b)
  {
    if w == W32 then Holds(w, b, t) else HasValue(TagBits(w), Window(w, b, beyond), t)
  }

  /** A number with the given tags as its fields has a field n exactly when one of them is n. */
  lemma TagFields(w: Width, x: nat, t0: nat, t1: nat, t2: nat, t3: nat, beyond: nat, n: nat)
    requires t0 < Base(w) && t1 < Base(w) && t2 < Base(w) && t3 < Base(w)
    requires x == t0 + Base(w) * (t1 + Base(w) * (t2 + Base(w) * (t3 + Base(w) * beyond)))
    ensures HasField(TagBits(w), x, n, 4) <==> t0 == n || t1 == n || t2 == n || t3 == n
  {
    BaseIsPower(w);
    var x3 := t3 + Base(w) * beyond;
    var x2 := t2 + Base(w) * x3;
    var x1 := t1 + Base(w) * x2;
    FieldStep(TagBits(w), x, t0, x1, n, 4);
    FieldStep(TagBits(w), x1, t1, x2, n, 3);
    FieldStep(TagBits(w), x2, t2, x3, n, 2);
    FieldStep(TagBits(w), x3, t3, beyond, n, 1);
  }

  lemma WindowHolds(w: Width, b: Bucket, beyond: nat, t: nat)
    requires Fits(w, b) && w != W32
    ensures HasField(TagBits(w), Window(w, b, beyond), t, 4) <==> Holds(w, b, t)
  {
    WindowFields(w, b, beyond);
    TagBound(w, b, 0);
    TagBound(w, b, 1);
    TagBound(w, b, 2);
    TagBound(w, b, 3);
    TagFields(w, Window(w, b, beyond), ReadTag(w, b, 0), ReadTag(w, b, 1), ReadTag(w, b, 2), ReadTag(w, b, 3), beyond,
      t);
  }

  /** Searching a bucket finds exactly the tags it holds, whatever lies behind it. */
  lemma FindTagExact(w: Width, b: Bucket, beyond: nat, t: nat)
    requires Fits(w, b) && t < Base(w)
    ensures FindTag(w, b, beyond, t) <==> Holds(w, b, t)
  {
    if w != W32 {
      BaseIsPower(w);
      WindowHolds(w, b, beyond, t);
      HasValueExact(TagBits(w), Window(w, b, beyond), t);
    }
  }

  lemma EmptyBucket(w: Width, b: Bucket, j: nat)
    requires Fits(w, b) && j < 4 && forall p :: 0 <= p < |b| ==> b[p] == 0
    ensures ReadTag(w, b, j) == 0
  {
  }
}
