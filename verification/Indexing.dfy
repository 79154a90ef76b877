/** Ordering the enumerators of an enum by a comparator: `indexing::get_indices`. */
module Indexing {
  type Compare = (int, int) -> bool

  ghost predicate StrictOrder(cmp: Compare)
  {
    && (forall a :: !cmp(a, a))
    && (forall a, b, c :: cmp(a, b) && cmp(b, c) ==> cmp(a, c))
  }

  /** `p` and `q` are permutations of the indices below `n`, each undoing the other. */
  ghost predicate Inverse(p: seq<nat>, q: seq<nat>, n: nat)
  {
    && |p| == |q| == n
    && (forall k :: 0 <= k < n ==> p[k] < n && q[p[k]] == k)
    && (forall k :: 0 <= k < n ==> q[k] < n && p[q[k]] == k)
  }

  ghost predicate Sorted(values: seq<int>, cmp: Compare)
  {
    forall i, j :: 0 <= i < j < |values| ==> !cmp(values[j], values[i])
  }

  /** `sorted` lists the values in the order `rev` gives their positions. */
  ghost predicate Arranged(values: seq<int>, sorted: seq<int>, rev: seq<nat>)
  {
    && |sorted| == |rev| == |values|
    && forall k :: 0 <= k < |values| ==> rev[k] < |values| && sorted[k] == values[rev[k]]
  }

  /** The positions below `done` hold values no later position precedes. */
  ghost predicate Settled(values: seq<int>, cmp: Compare, rev: seq<nat>, done: nat)
    requires forall k :: 0 <= k < |rev| ==> rev[k] < |values|
  {
    forall a, b :: 0 <= a < b < |rev| && a < done ==> !cmp(values[rev[b]], values[rev[a]])
  }

  /** Position `i` holds a value that no position in `(i, j)` precedes. */
  ghost predicate Candidate(values: seq<int>, cmp: Compare, rev: seq<nat>, i: nat, j: nat)
    requires i < |rev| && j <= |rev|
    requires forall k :: 0 <= k < |rev| ==> rev[k] < |values|
  {
    forall b :: i < b < j ==> !cmp(values[rev[b]], values[rev[i]])
  }

  function Swapped<T>(s: seq<T>, i: nat, j: nat): seq<T>
    requires i < |s| && j < |s|
  {
    s[i := s[j]][j := s[i]]
  }

  lemma Asymmetric(cmp: Compare, a: int, b: int)
    requires StrictOrder(cmp) && cmp(a, b)
    ensures !cmp(b, a)
  {
    assert cmp(a, b) && cmp(b, a) ==> cmp(a, a);
  }

  lemma SwapKeepsInverse(p: seq<nat>, q: seq<nat>, n: nat, i: nat, j: nat)
    requires Inverse(p, q, n) && i < j < n
    ensures Inverse(Swapped(p, i, j), q[p[i] := j][p[j] := i], n)
  {
    var p', q' := Swapped(p, i, j), q[p[i] := j][p[j] := i];
    assert p[i] != p[j] by { assert q[p[i]] != q[p[j]]; }
    forall k | 0 <= k < n ensures p'[k] < n && q'[p'[k]] == k {
      assert q[p[k]] == k;
    }
    forall k | 0 <= k < n ensures q'[k] < n && p'[q'[k]] == k {
      assert p[q[k]] == k;
    }
  }

  lemma SwapKeepsSettled(values: seq<int>, cmp: Compare, rev: seq<nat>, i: nat, j: nat)
    requires StrictOrder(cmp) && i < j < |rev|
    requires forall k :: 0 <= k < |rev| ==> rev[k] < |values|
    requires Settled(values, cmp, rev, i) && Candidate(values, cmp, rev, i, j)
    requires cmp(values[rev[j]], values[rev[i]])
    ensures forall k :: 0 <= k < |rev| ==> Swapped(rev, i, j)[k] < |values|
    ensures Settled(values, cmp, Swapped(rev, i, j), i)
    ensures Candidate(values, cmp, Swapped(rev, i, j), i, j + 1)
  {
    var rev' := Swapped(rev, i, j);
    assert !cmp(values[rev[i]], values[rev[j]]) by {
      Asymmetric(cmp, values[rev[j]], values[rev[i]]);
    }
    forall b | i < b < j + 1 ensures !cmp(values[rev'[b]], values[rev'[i]]) {
      if b != j {
        var x, y, z := values[rev[b]], values[rev[j]], values[rev[i]];
        assert rev'[b] == rev[b] && !cmp(x, z);
        assert cmp(x, y) && cmp(y, z) ==> cmp(x, z);
      }
    }
  }

  /** The order of the positions, and their inverse, while position `i` is being filled. */
  ghost predicate Sorting(values: seq<int>, cmp: Compare, rev: seq<nat>, inv: seq<nat>, i: nat, j: nat)
  {
    Inverse(rev, inv, |values|) && Settled(values, cmp, rev, i) && i < j <= |rev| && Candidate(values, cmp, rev, i, j)
  }

  lemma SwapKeepsSorting(values: seq<int>, cmp: Compare, rev: seq<nat>, inv: seq<nat>, i: nat, j: nat)
    requires StrictOrder(cmp) && Sorting(values, cmp, rev, inv, i, j) && j < |rev|
    requires cmp(values[rev[j]], values[rev[i]])
    ensures Sorting(values, cmp, Swapped(rev, i, j), inv[rev[i] := j][rev[j] := i], i, j + 1)
  {
    SwapKeepsInverse(rev, inv, |values|, i, j);
    SwapKeepsSettled(values, cmp, rev, i, j);
  }

  lemma StaySorting(values: seq<int>, cmp: Compare, rev: seq<nat>, inv: seq<nat>, i: nat, j: nat)
    requires Sorting(values, cmp, rev, inv, i, j) && j < |rev| && !cmp(values[rev[j]], values[rev[i]])
    ensures Sorting(values, cmp, rev, inv, i, j + 1)
  {
  }

  lemma SortingEnds(values: seq<int>, cmp: Compare, rev: seq<nat>, inv: seq<nat>, i: nat)
    requires Sorting(values, cmp, rev, inv, i, |rev|)
    ensures Settled(values, cmp, rev, i + 1)
  {
  }

  /** The exchange sort over the array of declaration positions. */
  method SortPositions(values: seq<int>, cmp: Compare) returns (rev: array<nat>, ghost inv: seq<nat>)
    requires StrictOrder(cmp)
    ensures fresh(rev) && Inverse(rev[..], inv, |values|)
    ensures Settled(values, cmp, rev[..], |values|)
  {
    var n := |values|;
    rev := new nat[n];
    for i := 0 to n
      invariant forall k :: 0 <= k < i ==> rev[k] == k
    {
      rev[i] := i;
    }
    inv := rev[..];
    for i := 0 to n
      invariant Inverse(rev[..], inv, n)
      invariant Settled(values, cmp, rev[..], i)
    {
      for j := i + 1 to n
        invariant Sorting(values, cmp, rev[..], inv, i, j)
      {
        if cmp(values[rev[j]], values[rev[i]]) {
          SwapKeepsSorting(values, cmp, rev[..], inv, i, j);
          inv := inv[rev[i] := j][rev[j] := i];
          Exchange(rev, i, j);
        } else {
          StaySorting(values, cmp, rev[..], inv, i, j);
        }
      }
      SortingEnds(values, cmp, rev[..], inv, i);
    }
  }

  method Exchange(a: array<nat>, i: nat, j: nat)
    requires i < a.Length && j < a.Length
    modifies a
    ensures a[..] == Swapped(old(a[..]), i, j)
  {
    var tmp := a[i];
    a[i] := a[j];
    a[j] := tmp;
  }

  /** `get_indices`: `rev` maps sorted positions to declaration positions, and the
      index array `res` is its inverse. */
  method GetIndices(values: seq<int>, cmp: Compare)
    returns (sorted: array<int>, res: array<nat>, ghost rev: seq<nat>)
    requires StrictOrder(cmp)
    ensures fresh(sorted) && fresh(res)
    ensures Inverse(rev, res[..], |values|)
    ensures Arranged(values, sorted[..], rev)
    ensures Sorted(sorted[..], cmp)
  {
    var n := |values|;
    var revRes, inv := SortPositions(values, cmp);
    rev := revRes[..];
    sorted := new int[n];
    res := new nat[n];
    for i := 0 to n
      invariant revRes[..] == rev
      invariant forall k :: 0 <= k < i ==> res[rev[k]] == k && sorted[k] == values[rev[k]]
    {
      res[revRes[i]] := i;
      sorted[i] := values[revRes[i]];
    }
    forall k | 0 <= k < n ensures res[k] == inv[k] {
      assert rev[inv[k]] == k;
    }
    assert res[..] == inv;
  }

  function IndexOf(values: seq<int>, v: int): (i: nat)
    ensures i <= |values|
    ensures i < |values| ==> values[i] == v
    ensures i == |values| ==> v !in values
  {
    if values == [] then 0 else if values[0] == v then 0 else 1 + IndexOf(values[1..], v)
  }

  /** `it(at(v))` names `v`, for any sorted array and index array that `GetIndices` may return. */
  lemma ItOfAt(values: seq<int>, cmp: Compare, sorted: seq<int>, res: seq<nat>, rev: seq<nat>, v: int)
    requires Inverse(rev, res, |values|) && Arranged(values, sorted, rev)
    requires v in values
    ensures res[IndexOf(values, v)] < |sorted| && sorted[res[IndexOf(values, v)]] == v
  {
    var i := IndexOf(values, v);
    assert rev[res[i]] == i;
  }

  /** Smaller enumerators get smaller positions. */
  lemma RankRespectsOrder(values: seq<int>, cmp: Compare, sorted: seq<int>, res: seq<nat>, rev: seq<nat>, i: nat, j: nat)
    requires StrictOrder(cmp)
    requires Inverse(rev, res, |values|) && Arranged(values, sorted, rev)
    requires Sorted(sorted, cmp)
    requires i < |values| && j < |values| && cmp(values[i], values[j])
    ensures res[i] < res[j]
  {
    assert rev[res[i]] == i && rev[res[j]] == j;
  }
}
