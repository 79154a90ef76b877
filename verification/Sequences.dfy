/** Orders and repetitions in sequences of integers. */
module Sequences {
  ghost predicate Distinct(s: seq<int>)
  {
    forall i, j :: 0 <= i < j < |s| ==> s[i] != s[j]
  }

  ghost predicate Increasing(s: seq<int>)
  {
    forall i, j :: 0 <= i < j < |s| ==> s[i] < s[j]
  }

  /** Increasing integers are at least as far apart as their positions. */
  lemma {:induction false} IncreasingSpreads(s: seq<int>, i: nat, j: nat)
    requires Increasing(s) && i <= j < |s|
    ensures s[j] - s[i] >= j - i
    decreases j
  {
    if i < j { IncreasingSpreads(s, i, j - 1); }
  }

  /** Whether `count` increasing positions from `first` to `last` leave gaps (`is_sparse`). */
  predicate Gapped(first: int, last: int, count: nat)
  {
    last - first + 1 != count
  }

  /** That is so exactly when they are not consecutive. */
  lemma GappedIff(s: seq<int>)
    requires Increasing(s) && s != []
    ensures Gapped(s[0], s[|s| - 1], |s|) <==> !forall i :: 0 <= i < |s| ==> s[i] == s[0] + i
  {
    if !Gapped(s[0], s[|s| - 1], |s|) {
      forall i | 0 <= i < |s| ensures s[i] == s[0] + i {
        IncreasingSpreads(s, 0, i);
        IncreasingSpreads(s, i, |s| - 1);
      }
    }
  }
}
