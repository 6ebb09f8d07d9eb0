/** The shape shared by the two "probe until unused" loops of the activity: candidate
    names `c(0), c(1), ...` are tried in order until one is not taken. `Tried(c, k)` is
    what the first `k` probes rejected; when the candidates are pairwise distinct it has
    exactly `k` elements, so a loop that only rejects taken names stops within
    `|taken|` probes. */
module Probe {

  /** The names `c(0), ..., c(k - 1)`. */
  function Tried(c: nat -> string, k: nat): (t: set<string>)
    ensures forall j :: 0 <= j < k ==> c(j) in t
  {
    if k == 0 then {} else Tried(c, k - 1) + {c(k - 1)}
  }

  /** Nothing but the first `k` candidates was tried. */
  lemma {:induction false} TriedOnly(c: nat -> string, k: nat, x: string)
    requires x in Tried(c, k)
    ensures exists j :: 0 <= j < k && x == c(j)
  {
    if x != c(k - 1) {
      TriedOnly(c, k - 1, x);
    }
  }

  ghost predicate Distinct(c: nat -> string) {
    forall i, j :: 0 <= i < j ==> c(i) != c(j)
  }

  /** With pairwise distinct candidates the next one is untried and `k` probes
      rejected `k` different names. */
  lemma {:induction false} TriedCount(c: nat -> string, k: nat)
    requires Distinct(c)
    ensures c(k) !in Tried(c, k)
    ensures |Tried(c, k)| == k
  {
    if c(k) in Tried(c, k) {
      TriedOnly(c, k, c(k));
    }
    if k > 0 {
      TriedCount(c, k - 1);
    }
  }

  /** A subset of a finite set is no larger. */
  lemma SubsetNoLarger(a: set<string>, b: set<string>)
    requires a <= b
    ensures |a| <= |b|
  {
    assert b == a + (b - a);
  }

  /** One more rejected probe removes exactly that candidate from what is left. */
  lemma ProbeShrinks(c: nat -> string, k: nat, taken: set<string>)
    requires Distinct(c) && c(k) in taken
    ensures |taken - Tried(c, k + 1)| < |taken - Tried(c, k)|
  {
    TriedCount(c, k);
    assert taken - Tried(c, k + 1) == (taken - Tried(c, k)) - {c(k)};
  }
}
