/** The three Kotlin `String` operations the note model relies on:
    `indexOf` (first occurrence, or -1), `contains` and `take`. */
module Strings {

  /** `p` occurs in `s` starting at index `i`. */
  predicate OccursAt(s: string, p: string, i: int) {
    0 <= i && i + |p| <= |s| && s[i..i + |p|] == p
  }

  /** The first index at or after `from` where `p` occurs in `s`, or -1. */
  function IndexFrom(s: string, p: string, from: nat): (r: int)
    ensures r == -1 || (from <= r && OccursAt(s, p, r))
    ensures forall k :: from <= k && (r == -1 || k < r) ==> !OccursAt(s, p, k)
    decreases |s| - from
  {
    if from + |p| > |s| then -1
    else if s[from..from + |p|] == p then from
    else IndexFrom(s, p, from + 1)
  }

  /** Kotlin's `s.indexOf(p)`: the first index where `p` occurs, or -1. */
  function IndexOf(s: string, p: string): int {
    IndexFrom(s, p, 0)
  }

  /** Kotlin's `s.contains(q)`, which is `s.indexOf(q) >= 0`. */
  predicate Contains(s: string, q: string) {
    IndexOf(s, q) >= 0
  }

  /** `IndexOf` finds the first occurrence: it is -1 exactly when there is none. */
  lemma IndexOfIsFirst(s: string, p: string)
    ensures IndexOf(s, p) == -1 <==> forall k :: !OccursAt(s, p, k)
    ensures IndexOf(s, p) != -1 ==>
      OccursAt(s, p, IndexOf(s, p)) && forall k :: k < IndexOf(s, p) ==> !OccursAt(s, p, k)
  {
  }

  /** `Contains` holds exactly when the query occurs somewhere in the string. */
  lemma ContainsIff(s: string, q: string)
    ensures Contains(s, q) <==> exists k :: OccursAt(s, q, k)
  {
    if Contains(s, q) {
      assert OccursAt(s, q, IndexOf(s, q));
    }
  }

  /** Every string contains the empty string. */
  lemma ContainsEmpty(s: string)
    ensures Contains(s, "")
  {
    assert OccursAt(s, "", 0);
  }

  /** Kotlin's `s.take(n)`: the first `n` characters, or all of `s` when it is shorter. */
  function Take(s: string, n: nat): (r: string)
    ensures |r| <= n && r <= s
    ensures |s| <= n ==> r == s
    ensures |s| > n ==> |r| == n
  {
    if |s| <= n then s else s[..n]
  }
}
