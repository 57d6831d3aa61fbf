/** Counting the distinct values a sequence maps to. */
module Counting {
  /** The values `f` maps the first `n` elements of `s` to. */
  ghost function Images<T, K>(s: seq<T>, f: T -> K, n: nat): set<K>
    requires n <= |s|
  {
    set i | 0 <= i < n :: f(s[i])
  }

  /**
   * The first `n` elements of `s`, when `f` maps them to pairwise different
   * values, map to exactly `n` values.
   */
  lemma {:induction false} DistinctImages<T, K>(s: seq<T>, f: T -> K, n: nat)
    requires n <= |s|
    requires forall i, j :: 0 <= i < j < n ==> f(s[i]) != f(s[j])
    ensures |Images(s, f, n)| == n
  {
    if n > 0 {
      DistinctImages(s, f, n - 1);
      assert Images(s, f, n) == Images(s, f, n - 1) + {f(s[n - 1])};
    }
  }
}
