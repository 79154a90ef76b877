/** The case labels of the hashed dispatch: detecting duplicate hashes, and filling a
    page of 256 labels so that no two of them collide. */
module CaseLabels {
  import opened Wrappers
  import opened Sequences

  /** Number of labels in a page of the dispatch. */
  const PAGE: nat := 256

  /** The integral type a hash function returns. */
  datatype HashType = HashType(min: int, max: int) {
    predicate Holds(x: int) { min <= x <= max }

    /** Incrementing; the largest value has no successor (it would wrap or be undefined). */
    function Next(x: int): (y: int)
      requires Holds(x) && x < max
      ensures Holds(y)
    {
      x + 1
    }

    /** Zero is representable and there is a value for every label of a page. */
    predicate Wide() { min <= 0 && min + PAGE - 1 <= max }
  }

  /** `has_duplicate`: despite its name it answers true when no hash repeats. It keeps the
      hashes seen so far sorted, sinking each new one to its place. */
  method HasDuplicate(hashed: seq<int>) returns (unique: bool)
    ensures unique <==> Distinct(hashed)
  {
    var hashes := new int[|hashed|];
    var size := 0;
    while size < |hashed|
      invariant 0 <= size <= |hashed|
      invariant Increasing(hashes[..size])
      invariant forall x :: x in hashes[..size] <==> x in hashed[..size]
      invariant Distinct(hashed[..size])
    {
      var elem := hashed[size];
      ghost var before := hashes[..size];
      hashes[size] := elem;
      var i := size;
      size := size + 1;
      while i > 0
        invariant 0 <= i < size == |before| + 1
        invariant hashes[i] == elem
        invariant forall k :: 0 <= k < i ==> hashes[k] == before[k]
        invariant forall k :: i < k < size ==> hashes[k] == before[k - 1]
        invariant i < |before| ==> elem < before[i]
      {
        if hashes[i] < hashes[i - 1] {
          var tmp := hashes[i];
          hashes[i] := hashes[i - 1];
          hashes[i - 1] := tmp;
        } else if hashes[i] == hashes[i - 1] {
          RepeatedHash(hashed, size - 1, before[i - 1]);
          return false;
        } else {
          break;
        }
        i := i - 1;
      }
      assert hashes[..size] == before[..i] + [elem] + before[i..];
      assert hashed[..size] == hashed[..size - 1] + [elem];
      Inserted(before, i, elem);
      DistinctSnoc(hashed[..size - 1], elem);
    }
    assert hashed[..size] == hashed;
    return true;
  }

  /** Where the new hash stops sinking it keeps the sequence increasing. */
  lemma Inserted(s: seq<int>, i: nat, x: int)
    requires Increasing(s) && i <= |s|
    requires i > 0 ==> s[i - 1] < x
    requires i < |s| ==> x < s[i]
    ensures Increasing(s[..i] + [x] + s[i..]) && x !in s
    ensures forall y :: y in s[..i] + [x] + s[i..] <==> y == x || y in s
  {
    var r := s[..i] + [x] + s[i..];
    forall j, k | 0 <= j < k < |r| ensures r[j] < r[k] {
      if k < i {
        assert s[j] < s[k];
      } else if j > i {
        assert s[j - 1] < s[k - 1];
      } else if j < i {
        assert s[j] <= s[i - 1] < x;
        assert k > i ==> x < s[i] <= s[k - 1];
      } else {
        assert s[i] <= s[k - 1];
      }
    }
    forall k | 0 <= k < |s| ensures s[k] != x && s[k] in r {
      assert k < i ==> r[k] == s[k] && r[k] < r[i];
      assert k >= i ==> r[k + 1] == s[k] && r[i] < r[k + 1];
    }
    assert r[i] == x;
  }

  lemma DistinctSnoc(s: seq<int>, x: int)
    ensures Distinct(s + [x]) <==> Distinct(s) && x !in s
  {
    if Distinct(s + [x]) {
      forall i, j | 0 <= i < j < |s| ensures s[i] != s[j] {
        assert (s + [x])[i] != (s + [x])[j];
      }
      forall i | 0 <= i < |s| ensures s[i] != x {
        assert (s + [x])[i] != (s + [x])[|s|];
      }
    }
  }

  lemma RepeatedHash(hashed: seq<int>, k: nat, x: int)
    requires k < |hashed| && x in hashed[..k] && hashed[k] == x
    ensures !Distinct(hashed)
  {
  }

  /** `n` consecutive labels from `first`. */
  function Run(first: int, n: nat): (s: seq<int>)
    ensures |s| == n && Increasing(s)
  {
    seq(n, i => first + i)
  }

  /** The hashes of the values a page dispatches on. */
  function Live(hashed: seq<int>, page: nat): (s: seq<int>)
    requires page < |hashed|
    ensures 1 <= |s| <= PAGE
  {
    if |hashed| - page <= PAGE then hashed[page..] else hashed[page..page + PAGE]
  }

  /** The longest stretch of dead labels that can be counted up from the last live one. */
  function CountUp(live: seq<int>, t: HashType): nat
    requires 1 <= |live| <= PAGE && t.Holds(live[|live| - 1])
  {
    var room := t.max - live[|live| - 1];
    if room <= PAGE - |live| then room else PAGE - |live|
  }

  /** The live hashes followed by the counted-up dead labels. */
  function Counted(live: seq<int>, t: HashType): (s: seq<int>)
    requires 1 <= |live| <= PAGE && t.Holds(live[|live| - 1])
    ensures |s| == |live| + CountUp(live, t) <= PAGE
  {
    live + Run(live[|live| - 1] + 1, CountUp(live, t))
  }

  ghost predicate Held(s: seq<int>, t: HashType)
  {
    forall k :: 0 <= k < |s| ==> t.Holds(s[k])
  }

  lemma CountedHolds(hashed: seq<int>, page: nat, t: HashType)
    requires page < |hashed| && forall h :: h in hashed ==> t.Holds(h)
    ensures Held(Live(hashed, page), t) && Held(Counted(Live(hashed, page), t), t)
  {
    var live := Live(hashed, page);
    forall k | 0 <= k < |live| ensures t.Holds(live[k]) {
      assert live[k] == hashed[page + k];
    }
  }

  /** When counting up fills the page, the labels are distinct exactly when the live hashes are
      and none of them lies in the stretch counted up from the last one. */
  lemma CountedDistinctIff(live: seq<int>, t: HashType)
    requires 1 <= |live| <= PAGE && Held(live, t) && |Counted(live, t)| == PAGE
    ensures Distinct(Counted(live, t)) <==>
            Distinct(live) && forall h :: h in live ==> !(live[|live| - 1] < h <= live[|live| - 1] + PAGE - |live|)
  {
    var n, last, all := |live|, live[|live| - 1], Counted(live, t);
    assert all[..n] == live;
    forall i | 0 <= i < n && last < live[i] <= last + PAGE - n ensures !Distinct(all) {
      assert all[n + (live[i] - last - 1)] == live[i] == all[i];
    }
    if Distinct(all) {
      forall i, j | 0 <= i < j < n ensures live[i] != live[j] {
        assert all[i] != all[j];
      }
    } else {
      var i, j :| 0 <= i < j < PAGE && all[i] == all[j];
      assert i < n <= j ==> all[i] in live;
    }
  }

  // ---------------------------------------------------------------- the labels of a page

  /** The first `it` labels increase and are the only ones below `bound`. */
  ghost predicate LowestFirst(labels: seq<int>, it: nat, bound: int)
  {
    && it <= |labels| && Increasing(labels[..it])
    && (forall k :: 0 <= k < it ==> labels[k] < bound)
    && (forall k :: it <= k < |labels| ==> bound <= labels[k])
  }

  /** Skipping the first `it` labels leaves room to fill the page up from the smallest value. */
  ghost predicate FillsAfter(counted: seq<int>, it: nat, t: HashType)
  {
    LowestFirst(counted, it, t.min + it + (PAGE - |counted|))
  }

  /** Of distinct labels that do not fill a page: those the filling runs into come first, in order. */
  ghost predicate Fillable(counted: seq<int>, t: HashType)
  {
    exists it: nat :: FillsAfter(counted, it, t)
  }

  /** The labels of a page are distinct. */
  ghost predicate PageFits(live: seq<int>, t: HashType)
    requires 1 <= |live| <= PAGE && t.Holds(live[|live| - 1])
  {
    var c := Counted(live, t);
    Distinct(c) && (|c| == PAGE || Fillable(c, t))
  }

  /** `calculate_cases`. Evaluation never increments past the limit of the type nor reads past the
      array, whatever the hashes; whether the labels are distinct is decided by `PageFits`. */
  method CalculateCases(hashed: seq<int>, page: nat, t: HashType) returns (cases: seq<int>)
    requires page < |hashed| && t.Wide()
    requires forall h :: h in hashed ==> t.Holds(h)
    ensures |cases| == PAGE && Counted(Live(hashed, page), t) <= cases && Held(cases, t)
    ensures forall h :: h in Live(hashed, page) ==> t.Holds(h)
    ensures Distinct(cases) <==> PageFits(Live(hashed, page), t)
  {
    ghost var live := Live(hashed, page);
    var valuesTo := if PAGE < |hashed| - page then PAGE else |hashed| - page;
    var result := new int[PAGE](_ => 0);
    var fill := 0;
    while fill < valuesTo
      invariant 0 <= fill <= valuesTo == |live|
      invariant result[..fill] == live[..fill]
    {
      result[fill] := hashed[page + fill];
      fill := fill + 1;
    }
    assert result[..fill] == live;
    assert hashed[page + valuesTo - 1] in hashed;

    fill := CountUpLabels(result, valuesTo, t);
    CountedHolds(hashed, page, t);
    cases := FillUnused(result, fill, t);
  }

  /** The middle pass of `calculate_cases`: counting up from the last live label. */
  method CountUpLabels(result: array<int>, valuesTo: nat, t: HashType) returns (fill: nat)
    requires result.Length == PAGE && 1 <= valuesTo <= PAGE && t.Holds(result[valuesTo - 1])
    modifies result
    ensures var live := old(result[..valuesTo]);
            && valuesTo <= fill <= PAGE && result[..fill] == Counted(live, t)
            && (fill < PAGE ==> result[fill - 1] == t.max)
  {
    ghost var live := result[..valuesTo];
    fill := valuesTo;
    var lastValue := result[valuesTo - 1];
    while fill != PAGE && lastValue != t.max
      invariant valuesTo <= fill <= PAGE && t.Holds(lastValue)
      invariant lastValue == live[valuesTo - 1] + (fill - valuesTo) == result[fill - 1]
      invariant result[..fill] == live + Run(live[valuesTo - 1] + 1, fill - valuesTo)
    {
      lastValue := t.Next(lastValue);
      result[fill] := lastValue;
      fill := fill + 1;
    }
  }

  /** The last pass of `calculate_cases`: from the smallest value upwards, skipping values in
      the order in which they appear as labels. */
  method FillUnused(result: array<int>, start: nat, t: HashType) returns (cases: seq<int>)
    requires result.Length == PAGE && 1 <= start <= PAGE && t.Wide()
    requires Held(result[..start], t) && (start < PAGE ==> result[start - 1] == t.max)
    modifies result
    ensures |cases| == PAGE && old(result[..start]) <= cases && Held(cases, t)
    ensures Distinct(cases) <==>
            (Distinct(old(result[..start])) && (start == PAGE || Fillable(old(result[..start]), t)))
  {
    ghost var counted := result[..start];
    var fill, it, lastValue := start, 0, t.min;
    while fill != PAGE
      invariant start <= fill <= PAGE
      invariant Filling(result[..fill], counted, it, lastValue, t)
      invariant fill > start ==> result[fill - 1] == lastValue - 1
    {
      ghost var labels := result[..fill];
      it, lastValue := SkipUsed(result, fill, counted, it, lastValue, t);
      FillStep(labels, counted, it, lastValue, t);
      result[fill] := lastValue;
      fill := fill + 1;
      assert result[..fill] == labels + [lastValue];
      lastValue := t.Next(lastValue);
    }
    cases := result[..];
    assert cases == result[..fill];
    FilledIff(cases, counted, it, lastValue, t);
  }

  /** The inner loop of that pass. */
  method SkipUsed(result: array<int>, ghost fill: nat, ghost counted: seq<int>, it0: nat, last0: int, t: HashType)
    returns (it: nat, last: int)
    requires result.Length == PAGE && t.Wide() && fill < PAGE
    requires Filling(result[..fill], counted, it0, last0, t)
    ensures Filling(result[..fill], counted, it, last, t) && last != counted[it]
  {
    it, last := it0, last0;
    ghost var labels := result[..fill];
    while last == result[it]
      invariant Filling(labels, counted, it, last, t)
      decreases |counted| - it
    {
      assert result[it] == labels[..|counted|][it];
      SkipStep(labels, counted, it, last, t);
      last, it := t.Next(last), it + 1;
    }
    assert result[it] == labels[..|counted|][it];
  }

  /** State of the final pass: the values below `last` have been skipped, as the first `it` of the
      labels there were, or filled in. */
  ghost predicate Filling(labels: seq<int>, counted: seq<int>, it: nat, last: int, t: HashType)
  {
    var m := |counted|;
    && 1 <= m <= |labels| <= PAGE && labels[..m] == counted && Held(labels, t)
    && it < m && (m < PAGE ==> counted[m - 1] == t.max)
    && last == t.min + it + (|labels| - m)
    && Increasing(counted[..it]) && (forall k :: 0 <= k < it ==> counted[k] < last)
    && Increasing(labels[m..]) && (forall k :: m <= k < |labels| ==> labels[k] < last)
    && (forall v :: t.min <= v < last ==> v in counted[..it] || v in labels[m..])
    && (forall v :: v in counted[..it] ==> v !in labels[m..])
    && (it == 0 || counted[it - 1] < counted[it] ==> last <= counted[it])
  }

  lemma FillingBelowLimit(labels: seq<int>, counted: seq<int>, it: nat, last: int, t: HashType)
    requires t.Wide() && Filling(labels, counted, it, last, t) && |labels| < PAGE
    ensures t.Holds(last) && last < t.max
    ensures last == counted[it] ==> it + 1 < |counted|
  {
  }

  lemma SkipStep(labels: seq<int>, counted: seq<int>, it: nat, last: int, t: HashType)
    requires t.Wide() && Filling(labels, counted, it, last, t) && |labels| < PAGE && last == counted[it]
    ensures it + 1 < |counted| && t.Holds(last) && last < t.max
    ensures Filling(labels, counted, it + 1, last + 1, t)
  {
    FillingBelowLimit(labels, counted, it, last, t);
    assert counted[..it + 1] == counted[..it] + [last];
    forall v | v in labels[|counted|..] ensures v != last {
      var k :| 0 <= k < |labels[|counted|..]| && labels[|counted|..][k] == v;
      assert labels[|counted| + k] == v;
    }
  }

  lemma FillStep(labels: seq<int>, counted: seq<int>, it: nat, last: int, t: HashType)
    requires t.Wide() && Filling(labels, counted, it, last, t) && |labels| < PAGE && last != counted[it]
    ensures t.Holds(last) && last < t.max
    ensures Filling(labels + [last], counted, it, last + 1, t)
  {
    FillingBelowLimit(labels, counted, it, last, t);
    var m, more := |counted|, labels + [last];
    assert more[m..] == labels[m..] + [last] && more[..m] == counted;
    forall k | 0 <= k < |labels[m..]| ensures labels[m..][k] < last {
      assert labels[m..][k] == labels[m + k];
    }
    forall v | v in counted[..it] ensures v != last {
      var k :| 0 <= k < it && counted[k] == v;
    }
  }

  /** A label below the last value that was not skipped is filled in a second time. */
  lemma UnskippedRepeats(labels: seq<int>, counted: seq<int>, it: nat, last: int, k: nat, t: HashType)
    requires Filling(labels, counted, it, last, t) && it <= k < |counted| && counted[k] < last
    ensures !Distinct(labels)
  {
    var m := |counted|;
    assert labels[..m][k] == labels[k] && t.Holds(labels[k]);
    if counted[k] in counted[..it] {
      var j :| 0 <= j < it && counted[j] == counted[k];
      assert labels[..m][j] == labels[j];
    } else {
      var j :| 0 <= j < |labels[m..]| && labels[m..][j] == counted[k];
      assert labels[m + j] == labels[k];
    }
  }

  /** All labels are distinct exactly when those counted up are and the skipped ones are all of
      these below the last value. */
  lemma FilledDistinctIff(labels: seq<int>, counted: seq<int>, it: nat, last: int, t: HashType)
    requires Filling(labels, counted, it, last, t)
    ensures Distinct(labels) <==> (Distinct(counted) && LowestFirst(counted, it, last))
  {
    var m := |counted|;
    forall k | 0 <= k < m ensures labels[k] == counted[k] { assert labels[..m][k] == counted[k]; }
    forall k | it <= k < m && counted[k] < last ensures !Distinct(labels) {
      UnskippedRepeats(labels, counted, it, last, k, t);
    }
    if Distinct(counted) && LowestFirst(counted, it, last) {
      forall i, j | 0 <= i < j < |labels| ensures labels[i] != labels[j] {
        if j < m {
          assert counted[i] != counted[j];
        } else if i < it {
          assert labels[m..][j - m] in labels[m..] && counted[..it][i] in counted[..it];
        } else if i >= m {
          assert labels[m..][i - m] < labels[m..][j - m];
        }
      }
    }
  }

  /** Skipping fewer labels would leave one below the last value. */
  lemma FewerDoNotFill(labels: seq<int>, counted: seq<int>, it: nat, last: int, j: nat, t: HashType)
    requires Filling(labels, counted, it, last, t) && |counted| < |labels| == PAGE && labels[PAGE - 1] == last - 1
    requires j < it
    ensures !FillsAfter(counted, j, t)
  {
    var m := |counted|;
    IncreasingSpreads(counted[..it], j, it - 1);
    assert labels[m..][PAGE - 1 - m] == last - 1;
    assert counted[..it][it - 1] in counted[..it];
  }

  /** If more labels may be skipped, so may these. */
  lemma MoreFill(labels: seq<int>, counted: seq<int>, it: nat, last: int, j: nat, t: HashType)
    requires Filling(labels, counted, it, last, t) && |counted| < |labels| == PAGE
    requires it <= j && FillsAfter(counted, j, t)
    ensures LowestFirst(counted, it, last)
  {
    if it < j {
      if it > 0 { assert counted[..j][it - 1] < counted[..j][it]; }
      forall k | it <= k < |counted| ensures last <= counted[k] {
        if it < k < j { assert counted[..j][it] < counted[..j][k]; }
      }
    }
  }

  lemma FilledIff(labels: seq<int>, counted: seq<int>, it: nat, last: int, t: HashType)
    requires Filling(labels, counted, it, last, t) && |labels| == PAGE
    requires |counted| < PAGE ==> labels[PAGE - 1] == last - 1
    ensures Distinct(labels) <==> (Distinct(counted) && (|counted| == PAGE || Fillable(counted, t)))
  {
    if |counted| == PAGE {
      assert labels == counted;
    } else {
      FilledDistinctIff(labels, counted, it, last, t);
      if LowestFirst(counted, it, last) { assert FillsAfter(counted, it, t); }
      if Fillable(counted, t) {
        var j: nat :| FillsAfter(counted, j, t);
        if j < it { FewerDoNotFill(labels, counted, it, last, j, t); }
        MoreFill(labels, counted, it, last, j, t);
      }
    }
  }

  // ---------------------------------------------------------------- special cases

  /** Increasing hashes always fit. */
  lemma IncreasingFits(live: seq<int>, t: HashType)
    requires 1 <= |live| <= PAGE && Held(live, t) && t.Wide() && Increasing(live)
    ensures PageFits(live, t)
  {
    var c := Counted(live, t);
    assert Increasing(c);
    if |c| < PAGE { IncreasingLowestFirst(c, t, 0); }
  }

  /** Increasing labels have some number of first ones below which the rest can be filled in. */
  lemma {:induction false} IncreasingLowestFirst(c: seq<int>, t: HashType, it: nat)
    requires 1 <= |c| < PAGE && Increasing(c) && t.Wide() && Held(c, t) && c[|c| - 1] == t.max && it < |c|
    requires forall k :: 0 <= k < it ==> c[k] < t.min + it + (PAGE - |c|)
    ensures Fillable(c, t)
    decreases |c| - it
  {
    if t.min + it + (PAGE - |c|) <= c[it] {
      assert FillsAfter(c, it, t);
    } else {
      IncreasingLowestFirst(c, t, it + 1);
    }
  }

  /** A page that leaves room to count up fits exactly when its hashes are distinct and none of them lies
      in the stretch above the last one. */
  lemma RoomyPageFitsIff(live: seq<int>, t: HashType)
    requires 1 <= |live| <= PAGE && Held(live, t) && live[|live| - 1] + PAGE - |live| <= t.max
    ensures PageFits(live, t) <==>
            (Distinct(live) && forall h :: h in live ==> !(live[|live| - 1] < h <= live[|live| - 1] + PAGE - |live|))
  {
    CountedDistinctIff(live, t);
  }

  /** A hash that lies shortly above the last one of a page that can be counted up collides with
      a dead label. */
  lemma HashAboveLastCollides(live: seq<int>, t: HashType, h: int)
    requires 1 <= |live| <= PAGE && Held(live, t) && |Counted(live, t)| == PAGE
    requires h in live && live[|live| - 1] < h <= live[|live| - 1] + PAGE - |live|
    ensures !PageFits(live, t)
  {
    CountedDistinctIff(live, t);
  }
}
