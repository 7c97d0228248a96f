/**
  Block copies into an array, as std::copy is used by the merges.

  Splice is the simultaneous copy. A copy loop that goes upwards agrees with it on
  every content exactly when the destination does not lie inside the source block
  to the right of its start (ForwardCopyIsSplice); mergeHi shifts such blocks to the
  right and depends on std::copy behaving like memmove there.
 */
module Copying {

  /** s with block written over the positions from at on. */
  function Splice<T>(s: seq<T>, at: nat, block: seq<T>): (r: seq<T>)
    requires at + |block| <= |s|
    ensures |r| == |s|
    ensures forall i :: 0 <= i < |s| ==> r[i] == if at <= i < at + |block| then block[i - at] else s[i]
  {
    s[..at] + block + s[at + |block|..]
  }

  /** The parts of a splice. */
  lemma SpliceParts<T>(s: seq<T>, at: nat, block: seq<T>, i: nat, j: nat)
    requires at + |block| <= |s| && i <= j <= |s|
    ensures Splice(s, at, block)[..at + |block|] == s[..at] + block
    ensures Splice(s, at, block)[at..] == block + s[at + |block|..]
    ensures j <= at || at + |block| <= i ==> Splice(s, at, block)[i..j] == s[i..j]
  {
  }

  /** Copy from separate storage. */
  method CopyIn<T>(a: array<T>, at: nat, block: seq<T>)
    requires at + |block| <= a.Length
    modifies a
    ensures a[..] == Splice(old(a[..]), at, block)
  {
    for i := 0 to |block|
      invariant a[..] == Splice(old(a[..]), at, block[..i])
    {
      a[at + i] := block[i];
    }
  }

  /** The upward element-by-element loop. */
  method CopyLoop<T>(a: array<T>, src: nat, n: nat, dst: nat)
    requires dst + n <= a.Length && src + n <= a.Length
    modifies a
    ensures a[..] == ForwardCopy(old(a[..]), src, n, dst)
  {
    for i := 0 to n
      invariant ForwardCopy(a[..], src + i, n - i, dst + i) == ForwardCopy(old(a[..]), src, n, dst)
    {
      ghost var s := a[..];
      a[dst + i] := a[src + i];
      assert a[..] == s[dst + i := s[src + i]];
    }
  }

  /** std::copy(first, last, dst) inside the array when the block moves left: the upward loop is enough. */
  method CopyLeft<T>(a: array<T>, first: nat, last: nat, dst: nat)
    requires dst <= first <= last <= a.Length
    modifies a
    ensures a[..] == Splice(old(a[..]), dst, old(a[..])[first..last])
  {
    ForwardCopyGood(a[..], first, last - first, dst);
    CopyLoop(a, first, last - first, dst);
  }

  /** std::copy(first, last, dst) read as a simultaneous copy; the block may move right over itself. */
  method CopyAny<T>(a: array<T>, first: nat, last: nat, dst: nat)
    requires first <= last <= a.Length && dst + (last - first) <= a.Length
    modifies a
    ensures a[..] == Splice(old(a[..]), dst, old(a[..])[first..last])
  {
    assert a[..][first..last] == a[first..last];
    CopyIn(a, dst, a[first..last]);
  }

  /** What an upward element-by-element copy loop leaves behind. */
  function ForwardCopy<T>(s: seq<T>, src: nat, n: nat, dst: nat): (r: seq<T>)
    requires src + n <= |s| && dst + n <= |s|
    ensures |r| == |s|
    decreases n
  {
    if n == 0 then s else ForwardCopy(s[dst := s[src]], src + 1, n - 1, dst + 1)
  }

  lemma {:induction false} ForwardCopyOutside<T>(s: seq<T>, src: nat, n: nat, dst: nat, j: nat)
    requires src + n <= |s| && dst + n <= |s| && j < |s| && !(dst <= j < dst + n)
    ensures ForwardCopy(s, src, n, dst)[j] == s[j]
    decreases n
  {
    if n > 0 {
      ForwardCopyOutside(s[dst := s[src]], src + 1, n - 1, dst + 1, j);
    }
  }

  /** Each copied element is the final content of its source if that was overwritten before. */
  lemma {:induction false} ForwardCopyAt<T>(s: seq<T>, src: nat, n: nat, dst: nat, t: nat)
    requires src + n <= |s| && dst + n <= |s| && t < n
    ensures ForwardCopy(s, src, n, dst)[dst + t] ==
            if dst <= src + t && src < dst then ForwardCopy(s, src, n, dst)[src + t] else s[src + t]
    decreases n
  {
    var s' := s[dst := s[src]];
    if t == 0 {
      ForwardCopyOutside(s', src + 1, n - 1, dst + 1, dst);
    } else {
      ForwardCopyAt(s', src + 1, n - 1, dst + 1, t - 1);
      if src + t == dst {
        ForwardCopyOutside(s', src + 1, n - 1, dst + 1, dst);
      }
    }
  }

  lemma ForwardCopyGood<T>(s: seq<T>, src: nat, n: nat, dst: nat)
    requires src + n <= |s| && dst + n <= |s| && (dst <= src || src + n <= dst)
    ensures ForwardCopy(s, src, n, dst) == Splice(s, dst, s[src..src + n])
  {
    forall j | 0 <= j < |s|
      ensures ForwardCopy(s, src, n, dst)[j] == Splice(s, dst, s[src..src + n])[j]
    {
      if dst <= j < dst + n {
        ForwardCopyAt(s, src, n, dst, j - dst);
      } else {
        ForwardCopyOutside(s, src, n, dst, j);
      }
    }
  }

  ghost predicate ForwardCopyExact(len: nat, src: nat, n: nat, dst: nat)
    requires src + n <= len && dst + n <= len
  {
    forall s: seq<int> {:trigger ForwardCopy(s, src, n, dst)} ::
      |s| == len ==> ForwardCopy(s, src, n, dst) == Splice(s, dst, s[src..src + n])
  }

  /** Exactly when an upward loop copies every content as if simultaneously. */
  lemma ForwardCopyIsSplice(len: nat, src: nat, n: nat, dst: nat)
    requires src + n <= len && dst + n <= len
    ensures ForwardCopyExact(len, src, n, dst) <==> dst <= src || src + n <= dst
  {
    if dst <= src || src + n <= dst {
      forall s: seq<int> | |s| == len
        ensures ForwardCopy(s, src, n, dst) == Splice(s, dst, s[src..src + n])
      {
        ForwardCopyGood(s, src, n, dst);
      }
    } else {
      var s := seq(len, (i: int) => i);
      var t := dst - src;
      ForwardCopyAt(s, src, n, dst, 0);
      ForwardCopyAt(s, src, n, dst, t);
      assert ForwardCopy(s, src, n, dst)[dst + t] == src;
      assert Splice(s, dst, s[src..src + n])[dst + t] == dst;
    }
  }
}
