/** Facts about sequences. */
module Sequences {
  lemma Associate<T>(a: seq<T>, b: seq<T>, c: seq<T>)
    ensures (a + b) + c == a + (b + c)
  {
  }

  /** The last element apart from the others, from k on. */
  lemma LastApart<T>(s: seq<T>, n: nat, k: nat)
    requires k <= n && |s| == n + 1
    ensures s[..n][..k] == s[..k] && s[k..] == s[..n][k..] + [s[n]]
  {
  }
}
