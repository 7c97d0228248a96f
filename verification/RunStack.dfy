/**
  The stack of runs: contiguous, non-empty, sorted runs that tile the part of the
  range processed so far. Merging two neighbours keeps that, conserves the total
  length and rearranges the elements stably.
 */
module RunStack {
  import opened Ordering
  import opened Rearranging

  /** The runs are in order, inside lo..hi, and each starts where the one before ends. */
  ghost predicate Contiguous(bases: seq<int>, lens: seq<int>, lo: int, hi: int) {
    && |bases| == |lens| && lo <= hi
    && (forall i :: 0 <= i < |bases| ==> 0 < lens[i] && lo <= bases[i] && bases[i] + lens[i] <= hi)
    && (forall i, j :: 0 <= i < j < |bases| ==> bases[i] + lens[i] <= bases[j])
    && (forall i, j :: 0 <= i && j == i + 1 < |bases| ==> bases[j] == bases[i] + lens[i])
    && (if bases == [] then lo == hi
        else bases[0] == lo && bases[|bases| - 1] + lens[|bases| - 1] == hi)
  }

  ghost predicate Tiled<T>(less: Less<T>, s: seq<T>, bases: seq<int>, lens: seq<int>, lo: int, hi: int) {
    && 0 <= lo && hi <= |s| && Contiguous(bases, lens, lo, hi)
    && forall i :: 0 <= i < |bases| ==> Sorted(less, s[bases[i]..bases[i] + lens[i]])
  }

  function BasesMerged(bases: seq<int>, i: nat): seq<int>
    requires i + 1 < |bases|
  {
    bases[..i + 1] + bases[i + 2..]
  }

  function LensMerged(lens: seq<int>, i: nat): seq<int>
    requires i + 1 < |lens|
  {
    lens[..i] + [lens[i] + lens[i + 1]] + lens[i + 2..]
  }

  lemma ContiguousMerged(bases: seq<int>, lens: seq<int>, lo: int, hi: int, i: nat)
    requires Contiguous(bases, lens, lo, hi) && i + 1 < |bases|
    ensures Contiguous(BasesMerged(bases, i), LensMerged(lens, i), lo, hi)
  {
    var b, l := BasesMerged(bases, i), LensMerged(lens, i);
    forall j | 0 <= j < |b|
      ensures b[j] == bases[if j <= i then j else j + 1]
      ensures j != i ==> l[j] == lens[if j <= i then j else j + 1]
    {
    }
    assert l[i] == lens[i] + lens[i + 1] && bases[i + 1] == bases[i] + lens[i];
  }

  /** Pushing a run that starts where the stack ends. */
  lemma TiledPush<T>(less: Less<T>, s: seq<T>, bases: seq<int>, lens: seq<int>, lo: int, hi: int, n: int)
    requires Tiled(less, s, bases, lens, lo, hi) && 0 < n && hi + n <= |s| && Sorted(less, s[hi..hi + n])
    ensures Tiled(less, s, bases + [hi], lens + [n], lo, hi + n)
  {
  }

  /** Changes after the tiled range do not matter. */
  lemma TiledFrame<T>(less: Less<T>, s: seq<T>, s': seq<T>, bases: seq<int>, lens: seq<int>, lo: int, hi: int)
    requires Tiled(less, s, bases, lens, lo, hi) && hi <= |s'|
    requires forall i :: 0 <= i < hi ==> s'[i] == s[i]
    ensures Tiled(less, s', bases, lens, lo, hi)
  {
    forall i | 0 <= i < |bases| ensures Sorted(less, s'[bases[i]..bases[i] + lens[i]]) {
      assert s'[bases[i]..bases[i] + lens[i]] == s[bases[i]..bases[i] + lens[i]];
    }
  }

  /** A new run made where the stack ends. */
  lemma TiledNext<T(!new)>(less: Less<T>, s: seq<T>, t: seq<T>, bases: seq<int>, lens: seq<int>, lo: int, hi: int,
      n: int)
    requires Tiled(less, s, bases, lens, lo, hi) && 0 < n && hi + n <= |s|
    requires Rearranged(less, s, t, hi, hi + n) && Sorted(less, t[hi..hi + n])
    ensures Tiled(less, t, bases + [hi], lens + [n], lo, hi + n)
  {
    TiledFrame(less, s, t, bases, lens, lo, hi);
    TiledPush(less, t, bases, lens, lo, hi, n);
  }

  /** The runs beside the merged pair are untouched. */
  lemma RunsSortedMerged<T(!new)>(less: Less<T>, s: seq<T>, s': seq<T>, bases: seq<int>, lens: seq<int>, lo: int,
      hi: int,
                                  i: nat, j: nat)
    requires Tiled(less, s, bases, lens, lo, hi) && i + 1 < |bases|
    requires Rearranged(less, s, s', bases[i], bases[i + 1] + lens[i + 1])
    requires Sorted(less, s'[bases[i]..bases[i + 1] + lens[i + 1]])
    requires j < |bases| && j != i && j != i + 1
    ensures Sorted(less, s'[bases[j]..bases[j] + lens[j]])
  {
    assert bases[i + 1] == bases[i] + lens[i];
    RearrangedOutside(less, s, s', bases[i], bases[i + 1] + lens[i + 1], bases[j], bases[j] + lens[j]);
  }

  /** Merging two neighbouring runs keeps the tiling. */
  lemma TiledMerged<T(!new)>(less: Less<T>, s: seq<T>, s': seq<T>, bases: seq<int>, lens: seq<int>, lo: int, hi: int,
      i: nat)
    requires Tiled(less, s, bases, lens, lo, hi) && i + 1 < |bases|
    requires Rearranged(less, s, s', bases[i], bases[i + 1] + lens[i + 1])
    requires Sorted(less, s'[bases[i]..bases[i + 1] + lens[i + 1]])
    ensures Tiled(less, s', BasesMerged(bases, i), LensMerged(lens, i), lo, hi)
  {
    ContiguousMerged(bases, lens, lo, hi, i);
    forall j | 0 <= j < |bases| - 1
      ensures Sorted(less, s'[BasesMerged(bases, i)[j]..BasesMerged(bases, i)[j] + LensMerged(lens, i)[j]])
    {
      if j != i {
        RunsSortedMerged(less, s, s', bases, lens, lo, hi, i, if j < i then j else j + 1);
      }
    }
  }

  /** What the merge of runs i and i + 1 may rely on. */
  lemma Neighbours<T(!new)>(less: Less<T>, s: seq<T>, bases: seq<int>, lens: seq<int>, lo: int, hi: int, i: nat)
    requires Tiled(less, s, bases, lens, lo, hi) && i + 1 < |bases|
    ensures lo <= bases[i] && 0 < lens[i] && 0 < lens[i + 1]
    ensures bases[i + 1] == bases[i] + lens[i] && bases[i + 1] + lens[i + 1] <= hi
    ensures Sorted(less, s[bases[i]..bases[i + 1]]) && Sorted(less, s[bases[i + 1]..bases[i + 1] + lens[i + 1]])
  {
    assert s[bases[i]..bases[i + 1]] == s[bases[i]..bases[i] + lens[i]];
  }
}
