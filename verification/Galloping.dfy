/**
  Exponential probing from a hint followed by binary search. The probes may start
  anywhere and run either way; the answer is the one linear search would give.
 */
module Galloping {
  import opened Ordering

  /** Three-way comparison: -1, 0 or +1. */
  function Compare<T>(less: Less<T>, x: T, y: T): int {
    if less(x, y) then -1 else if less(y, x) then 1 else 0
  }

  /** ofs splits s into the elements less than key and the rest. */
  ghost predicate LeftCut<T>(less: Less<T>, key: T, s: seq<T>, ofs: int) {
    && 0 <= ofs <= |s|
    && (forall i :: 0 <= i < ofs ==> less(s[i], key))
    && (forall i :: ofs <= i < |s| ==> Le(less, key, s[i]))
  }

  /** ofs splits s into the elements not greater than key and the rest. */
  ghost predicate RightCut<T>(less: Less<T>, key: T, s: seq<T>, ofs: int) {
    && 0 <= ofs <= |s|
    && (forall i :: 0 <= i < ofs ==> Le(less, s[i], key))
    && (forall i :: ofs <= i < |s| ==> less(key, s[i]))
  }

  /** Linear search, as a count of the elements that satisfy p. */
  ghost function Count<T>(s: seq<T>, p: T -> bool): nat {
    if s == [] then 0 else (if p(s[0]) then 1 else 0) + Count(s[1..], p)
  }

  lemma {:induction false} CountCut<T>(s: seq<T>, p: T -> bool, ofs: nat)
    requires ofs <= |s|
    requires forall i :: 0 <= i < ofs ==> p(s[i])
    requires forall i :: ofs <= i < |s| ==> !p(s[i])
    ensures Count(s, p) == ofs
  {
    if s != [] {
      CountCut(s[1..], p, if ofs == 0 then 0 else ofs - 1);
    }
  }

  /** One comparison with s[h] decides for everything on one side of h. */
  lemma Probe<T(!new)>(less: Less<T>, key: T, s: seq<T>, h: nat)
    requires StrictWeak(less) && Sorted(less, s) && h < |s|
    ensures less(s[h], key) ==> forall i :: 0 <= i <= h ==> less(s[i], key)
    ensures Le(less, s[h], key) ==> forall i :: 0 <= i <= h ==> Le(less, s[i], key)
    ensures less(key, s[h]) ==> forall i :: h <= i < |s| ==> less(key, s[i])
    ensures Le(less, key, s[h]) ==> forall i :: h <= i < |s| ==> Le(less, key, s[i])
  {
    forall i | 0 <= i < h
      ensures less(s[h], key) ==> less(s[i], key)
      ensures Le(less, s[h], key) ==> Le(less, s[i], key)
    {
      assert Le(less, s[i], s[h]);
      assert Le(less, key, s[i]) ==> Le(less, key, s[h]);
    }
    forall i | h < i < |s|
      ensures less(key, s[h]) ==> less(key, s[i])
      ensures Le(less, key, s[h]) ==> Le(less, key, s[i])
    {
      assert Le(less, s[h], s[i]);
      assert Le(less, s[i], key) ==> Le(less, s[h], key);
    }
  }

  lemma CompareSign<T(!new)>(less: Less<T>, x: T, y: T)
    requires StrictWeak(less)
    ensures Compare(less, x, y) < 0 <==> less(x, y)
    ensures Compare(less, x, y) > 0 <==> less(y, x)
  {
    assert Le(less, x, y) || Le(less, y, x);
  }

  method GallopLeft<T(!new)>(less: Less<T>, key: T, s: seq<T>, hint: nat) returns (ofs: nat)
    requires StrictWeak(less) && Sorted(less, s) && hint < |s|
    ensures LeftCut(less, key, s, ofs)
    ensures ofs == Count(s, x => less(x, key))
  {
    var lo, hi := 0, 1;
    CompareSign(less, key, s[hint]);
    Probe(less, key, s, hint);
    if Compare(less, key, s[hint]) > 0 {
      var maxOfs := |s| - hint;
      while hi < maxOfs && Compare(less, key, s[hint + hi]) > 0
        invariant 0 <= lo < hi && lo < maxOfs
        invariant forall i :: 0 <= i <= hint + lo ==> less(s[i], key)
        decreases maxOfs - hi
      {
        CompareSign(less, key, s[hint + hi]);
        Probe(less, key, s, hint + hi);
        lo, hi := hi, 2 * hi + 1;
      }
      if hi < maxOfs {
        CompareSign(less, key, s[hint + hi]);
        Probe(less, key, s, hint + hi);
      }
      if hi > maxOfs { hi := maxOfs; }
      lo, hi := lo + hint, hi + hint;
    } else {
      var maxOfs := hint + 1;
      while hi < maxOfs && Compare(less, key, s[hint - hi]) <= 0
        invariant 0 <= lo < hi && lo < maxOfs
        invariant forall i :: hint - lo <= i < |s| ==> Le(less, key, s[i])
        decreases maxOfs - hi
      {
        CompareSign(less, key, s[hint - hi]);
        Probe(less, key, s, hint - hi);
        lo, hi := hi, 2 * hi + 1;
      }
      if hi < maxOfs {
        CompareSign(less, key, s[hint - hi]);
        Probe(less, key, s, hint - hi);
      }
      if hi > maxOfs { hi := maxOfs; }
      lo, hi := hint - hi, hint - lo;
    }
    assert -1 <= lo < hi <= |s|;
    lo := lo + 1;
    while lo < hi
      invariant 0 <= lo <= hi <= |s|
      invariant forall i :: 0 <= i < lo ==> less(s[i], key)
      invariant forall i :: hi <= i < |s| ==> Le(less, key, s[i])
    {
      var mid := lo + (hi - lo) / 2;
      CompareSign(less, key, s[mid]);
      Probe(less, key, s, mid);
      if Compare(less, key, s[mid]) > 0 {
        lo := mid + 1;
      } else {
        hi := mid;
      }
    }
    ofs := hi;
    CountCut(s, x => less(x, key), ofs);
  }

  method GallopRight<T(!new)>(less: Less<T>, key: T, s: seq<T>, hint: nat) returns (ofs: nat)
    requires StrictWeak(less) && Sorted(less, s) && hint < |s|
    ensures RightCut(less, key, s, ofs)
    ensures ofs == Count(s, x => Le(less, x, key))
  {
    var lo, hi := 0, 1;
    CompareSign(less, key, s[hint]);
    Probe(less, key, s, hint);
    if Compare(less, key, s[hint]) < 0 {
      var maxOfs := hint + 1;
      while hi < maxOfs && Compare(less, key, s[hint - hi]) < 0
        invariant 0 <= lo < hi && lo < maxOfs
        invariant forall i :: hint - lo <= i < |s| ==> less(key, s[i])
        decreases maxOfs - hi
      {
        CompareSign(less, key, s[hint - hi]);
        Probe(less, key, s, hint - hi);
        lo, hi := hi, 2 * hi + 1;
      }
      if hi < maxOfs {
        CompareSign(less, key, s[hint - hi]);
        Probe(less, key, s, hint - hi);
      }
      if hi > maxOfs { hi := maxOfs; }
      lo, hi := hint - hi, hint - lo;
    } else {
      var maxOfs := |s| - hint;
      while hi < maxOfs && Compare(less, key, s[hint + hi]) >= 0
        invariant 0 <= lo < hi && lo < maxOfs
        invariant forall i :: 0 <= i <= hint + lo ==> Le(less, s[i], key)
        decreases maxOfs - hi
      {
        CompareSign(less, key, s[hint + hi]);
        Probe(less, key, s, hint + hi);
        lo, hi := hi, 2 * hi + 1;
      }
      if hi < maxOfs {
        CompareSign(less, key, s[hint + hi]);
        Probe(less, key, s, hint + hi);
      }
      if hi > maxOfs { hi := maxOfs; }
      lo, hi := lo + hint, hi + hint;
    }
    assert -1 <= lo < hi <= |s|;
    lo := lo + 1;
    while lo < hi
      invariant 0 <= lo <= hi <= |s|
      invariant forall i :: 0 <= i < lo ==> Le(less, s[i], key)
      invariant forall i :: hi <= i < |s| ==> less(key, s[i])
    {
      var mid := lo + (hi - lo) / 2;
      CompareSign(less, key, s[mid]);
      Probe(less, key, s, mid);
      if Compare(less, key, s[mid]) < 0 {
        hi := mid;
      } else {
        lo := mid + 1;
      }
    }
    ofs := hi;
    CountCut(s, x => Le(less, x, key), ofs);
  }
}
