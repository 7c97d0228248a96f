/**
  Strict weak orders, sortedness and stability.

  A sequence t is a stable rearrangement of s when, for every x, the elements
  equivalent to x occur in t exactly as they occur in s: same elements, same
  order. Together with sortedness this determines t (SortedStableUnique), and it
  implies that t is a permutation of s (StableIsPermutation).
 */
module Ordering {

  type Less<!T> = (T, T) -> bool

  /** x may stand before y. */
  predicate Le<T>(less: Less<T>, x: T, y: T) {
    !less(y, x)
  }

  predicate Equiv<T>(less: Less<T>, x: T, y: T) {
    Le(less, x, y) && Le(less, y, x)
  }

  /** What the C++ standard asks of a comparison function. */
  ghost predicate StrictWeak<T(!new)>(less: Less<T>) {
    && (forall x, y {:trigger Le(less, x, y)} :: Le(less, x, y) || Le(less, y, x))
    && (forall x, y, z {:trigger Le(less, x, y), Le(less, y, z)} ::
          Le(less, x, y) && Le(less, y, z) ==> Le(less, x, z))
  }

  ghost predicate Sorted<T>(less: Less<T>, s: seq<T>) {
    forall i, j {:trigger s[i], s[j]} :: 0 <= i < j < |s| ==> Le(less, s[i], s[j])
  }

  /** The elements of s equivalent to x, in their order of occurrence. */
  ghost function Class<T>(less: Less<T>, s: seq<T>, x: T): seq<T> {
    if s == [] then []
    else (if Equiv(less, s[0], x) then [s[0]] else []) + Class(less, s[1..], x)
  }

  ghost predicate Stable<T(!new)>(less: Less<T>, s: seq<T>, t: seq<T>) {
    |s| == |t| && forall x {:trigger Class(less, s, x)} {:trigger Class(less, t, x)} ::
      Class(less, s, x) == Class(less, t, x)
  }

  lemma {:induction false} ClassConcat<T>(less: Less<T>, s: seq<T>, t: seq<T>, x: T)
    ensures Class(less, s + t, x) == Class(less, s, x) + Class(less, t, x)
  {
    if s == [] {
      assert s + t == t;
    } else {
      var head := if Equiv(less, s[0], x) then [s[0]] else [];
      assert (s + t)[1..] == s[1..] + t;
      ClassConcat(less, s[1..], t, x);
      calc {
        Class(less, s + t, x);
        head + Class(less, s[1..] + t, x);
        head + (Class(less, s[1..], x) + Class(less, t, x));
        (head + Class(less, s[1..], x)) + Class(less, t, x);
        Class(less, s, x) + Class(less, t, x);
      }
    }
  }

  lemma ClassOne<T>(less: Less<T>, e: T, x: T)
    ensures Class(less, [e], x) == if Equiv(less, e, x) then [e] else []
  {
    assert [e][1..] == [];
  }

  /** A part without equivalents of x contributes nothing. */
  lemma {:induction false} ClassEmpty<T>(less: Less<T>, s: seq<T>, x: T)
    requires forall i :: 0 <= i < |s| ==> !Equiv(less, s[i], x)
    ensures Class(less, s, x) == []
  {
    if s != [] {
      ClassEmpty(less, s[1..], x);
    }
  }

  lemma StableConcat<T(!new)>(less: Less<T>, s1: seq<T>, t1: seq<T>, s2: seq<T>, t2: seq<T>)
    requires Stable(less, s1, t1) && Stable(less, s2, t2)
    ensures Stable(less, s1 + s2, t1 + t2)
  {
    forall x ensures Class(less, s1 + s2, x) == Class(less, t1 + t2, x) {
      ClassConcat(less, s1, s2, x);
      ClassConcat(less, t1, t2, x);
    }
  }

  /** A rearrangement inside one part of a sequence is a rearrangement of the whole. */
  lemma StableInside<T(!new)>(less: Less<T>, pre: seq<T>, s: seq<T>, t: seq<T>, post: seq<T>)
    requires Stable(less, s, t)
    ensures Stable(less, pre + s + post, pre + t + post)
  {
    StableConcat(less, pre, pre, s, t);
    StableConcat(less, pre + s, pre + t, post, post);
  }

  lemma {:induction false} ClassCount<T>(less: Less<T>, s: seq<T>, x: T)
    requires Le(less, x, x)
    ensures multiset(Class(less, s, x))[x] == multiset(s)[x]
  {
    if s != [] {
      ClassCount(less, s[1..], x);
      assert s == [s[0]] + s[1..];
    }
  }

  lemma StableIsPermutation<T(!new)>(less: Less<T>, s: seq<T>, t: seq<T>)
    requires StrictWeak(less) && Stable(less, s, t)
    ensures multiset(s) == multiset(t)
  {
    forall x ensures multiset(s)[x] == multiset(t)[x] {
      assert Le(less, x, x);
      ClassCount(less, s, x);
      ClassCount(less, t, x);
      assert Class(less, s, x) == Class(less, t, x);
    }
  }

  lemma {:induction false} ClassMember<T>(less: Less<T>, s: seq<T>, x: T, k: nat)
    requires k < |Class(less, s, x)|
    ensures exists i :: 0 <= i < |s| && s[i] == Class(less, s, x)[k] && Equiv(less, s[i], x)
  {
    if Equiv(less, s[0], x) {
      if k > 0 {
        ClassMember(less, s[1..], x, k - 1);
        var i :| 0 <= i < |s[1..]| && s[1..][i] == Class(less, s[1..], x)[k - 1] && Equiv(less, s[1..][i], x);
        assert s[i + 1] == Class(less, s, x)[k];
      }
    } else {
      ClassMember(less, s[1..], x, k);
      var i :| 0 <= i < |s[1..]| && s[1..][i] == Class(less, s[1..], x)[k] && Equiv(less, s[1..][i], x);
      assert s[i + 1] == Class(less, s, x)[k];
    }
  }

  /** The first elements of two sorted stable rearrangements of each other agree. */
  lemma SortedStableHead<T(!new)>(less: Less<T>, s: seq<T>, t: seq<T>)
    requires StrictWeak(less) && Sorted(less, s) && Sorted(less, t) && Stable(less, s, t) && s != []
    ensures s[0] == t[0]
  {
    var x, y := s[0], t[0];
    assert Le(less, x, x) && Le(less, y, y);
    assert Class(less, s, x)[0] == x && Class(less, t, y)[0] == y;
    assert Class(less, s, x) == Class(less, t, x) && Class(less, s, y) == Class(less, t, y);
    ClassMember(less, t, x, 0);
    ClassMember(less, s, y, 0);
    var i :| 0 <= i < |t| && t[i] == x;
    var j :| 0 <= j < |s| && s[j] == y;
    assert Le(less, y, x) && Le(less, x, y);
    assert Class(less, t, x)[0] == y;
  }

  /** Sorted and stable says everything: there is only one such result. */
  lemma {:induction false} SortedStableUnique<T(!new)>(less: Less<T>, s: seq<T>, t: seq<T>)
    requires StrictWeak(less) && Sorted(less, s) && Sorted(less, t) && Stable(less, s, t)
    ensures s == t
  {
    if s != [] {
      SortedStableHead(less, s, t);
      forall x ensures Class(less, s[1..], x) == Class(less, t[1..], x) {
        assert Class(less, s, x) == Class(less, t, x);
        assert Class(less, s, x)[|Class(less, s, x)| - |Class(less, s[1..], x)|..] == Class(less, s[1..], x);
        assert Class(less, t, x)[|Class(less, t, x)| - |Class(less, t[1..], x)|..] == Class(less, t[1..], x);
      }
      SortedStableUnique(less, s[1..], t[1..]);
      assert s == [s[0]] + s[1..] && t == [t[0]] + t[1..];
    }
  }
}
