/** The table of an enum's values, and the lookups that replace it by arithmetic when the
    values have no gaps. Which candidates are declared enumerators is a parameter. */
module EnumTable {
  import opened Wrappers
  import opened BitMath
  import opened Fuse
  import opened Sequences

  datatype Subtype = Common | Flags

  /** The candidate at position `i` of the reflected range (`ualue`). For flags it is a power of two. */
  function Candidate(s: Subtype, min: int, i: nat): int
    requires s.Flags? ==> min + i >= 0
  {
    if s.Flags? then Pow2(min + i) else min + i
  }

  /** Positions of the declared enumerators, in increasing order. */
  function Positions(valid: seq<bool>): (p: seq<nat>)
  {
    if valid == [] then []
    else
      var n := |valid| - 1;
      Positions(valid[..n]) + (if valid[n] then [n] else [])
  }

  lemma {:induction false} PositionsExact(valid: seq<bool>)
    ensures forall i :: i in Positions(valid) <==> 0 <= i < |valid| && valid[i]
    ensures Increasing(Positions(valid))
  {
    if valid != [] {
      var n := |valid| - 1;
      PositionsExact(valid[..n]);
      forall k | 0 <= k < |Positions(valid[..n])| ensures Positions(valid[..n])[k] < n {
        assert Positions(valid[..n])[k] in Positions(valid[..n]);
      }
    }
  }

  lemma {:induction false} PositionsSnoc(valid: seq<bool>, i: nat)
    requires i < |valid|
    ensures Positions(valid[..i + 1]) == Positions(valid[..i]) + (if valid[i] then [i] else [])
    ensures |Positions(valid[..i + 1])| <= |Positions(valid)|
    decreases |valid| - i
  {
    assert valid[..i + 1][..i] == valid[..i];
    if i + 1 < |valid| {
      PositionsSnoc(valid, i + 1);
    } else {
      assert valid[..i + 1] == valid;
    }
  }

  /** The entries a table with these valid positions must have. */
  function Entries(valid: seq<bool>, s: Subtype, min: int): (e: seq<int>)
    requires s.Flags? ==> min >= 0
    ensures |e| == |Positions(valid)|
    ensures forall k :: 0 <= k < |e| ==> e[k] == Candidate(s, min, Positions(valid)[k])
  {
    var p := Positions(valid);
    seq(|p|, k requires 0 <= k < |p| => Candidate(s, min, p[k]))
  }

  /** `valid_count`: which candidates are declared, and how many. */
  method ValidCount(isValid: int -> bool, s: Subtype, min: int, size: nat)
    returns (valid: array<bool>, count: nat)
    requires s.Flags? ==> min >= 0
    ensures fresh(valid) && valid.Length == size
    ensures forall i :: 0 <= i < size ==> valid[i] == isValid(Candidate(s, min, i))
    ensures count == |Positions(valid[..])|
  {
    valid := new bool[size](_ => false);
    count := 0;
    for i := 0 to size
      invariant forall k :: 0 <= k < i ==> valid[k] == isValid(Candidate(s, min, k))
      invariant forall k :: i <= k < size ==> !valid[k]
      invariant count == |Positions(valid[..i])|
    {
      ghost var before := valid[..i];
      if isValid(Candidate(s, min, i)) {
        valid[i] := true;
        count := count + 1;
      }
      assert valid[..i + 1][..i] == before;
    }
    assert valid[..size] == valid[..];
  }

  /** `values`: the loop that collects the valid candidates. */
  method Values(isValid: int -> bool, s: Subtype, min: int, size: nat) returns (values: array<int>)
    requires s.Flags? ==> min >= 0
    ensures Increasing(values[..])
    ensures forall v :: v in values[..] <==> exists i :: 0 <= i < size && v == Candidate(s, min, i) && isValid(v)
  {
    var valid, count := ValidCount(isValid, s, min, size);
    ghost var mask := valid[..];
    values := new int[count];
    var i, v := 0, 0;
    while v < count
      invariant 0 <= i <= size && 0 <= v <= count
      invariant valid[..] == mask
      invariant v == |Positions(mask[..i])|
      invariant values[..v] == Entries(mask[..i], s, min)
      decreases size - i
    {
      assert mask[..size] == mask;
      PositionsSnoc(mask, i);
      if valid[i] {
        values[v] := Candidate(s, min, i);
        v := v + 1;
      }
      i := i + 1;
    }
    AllCollected(mask, i);
    assert values[..] == Entries(mask, s, min);
    DeclaredExact(isValid, mask, s, min);
  }

  lemma DeclaredExact(isValid: int -> bool, mask: seq<bool>, s: Subtype, min: int)
    requires s.Flags? ==> min >= 0
    requires forall i :: 0 <= i < |mask| ==> mask[i] == isValid(Candidate(s, min, i))
    ensures Increasing(Entries(mask, s, min))
    ensures forall v :: v in Entries(mask, s, min) <==> exists i :: 0 <= i < |mask| && v == Candidate(s, min, i) && isValid(v)
  {
    TableExact(mask, s, min);
    forall v ensures v in Entries(mask, s, min) <==> exists i :: 0 <= i < |mask| && v == Candidate(s, min, i) && isValid(v) {
      if i :| 0 <= i < |mask| && v == Candidate(s, min, i) && isValid(v) {
        assert mask[i];
      }
    }
  }

  /** Once every valid position is counted, the rest of the range holds none. */
  lemma {:induction false} AllCollected(valid: seq<bool>, i: nat)
    requires i <= |valid| && |Positions(valid[..i])| == |Positions(valid)|
    ensures Positions(valid[..i]) == Positions(valid)
    decreases |valid| - i
  {
    if i < |valid| {
      PositionsSnoc(valid, i);
      AllCollected(valid, i + 1);
    } else {
      assert valid[..i] == valid;
    }
  }

  lemma TableExact(valid: seq<bool>, s: Subtype, min: int)
    requires s.Flags? ==> min >= 0
    ensures Increasing(Entries(valid, s, min))
    ensures forall v :: v in Entries(valid, s, min) <==>
                        exists i :: 0 <= i < |valid| && valid[i] && v == Candidate(s, min, i)
  {
    var e, p := Entries(valid, s, min), Positions(valid);
    PositionsExact(valid);
    forall j, k | 0 <= j < k < |e| ensures e[j] < e[k] {
      assert p[j] < p[k];
      if s.Flags? { Pow2Increasing(min + p[j], min + p[k]); }
    }
    forall i | 0 <= i < |valid| && valid[i] ensures Candidate(s, min, i) in e {
      assert i in p;
      var k :| 0 <= k < |p| && p[k] == i;
      assert e[k] == Candidate(s, min, i);
    }
    forall v | v in e ensures exists i :: 0 <= i < |valid| && valid[i] && v == Candidate(s, min, i) {
      var k :| 0 <= k < |e| && e[k] == v;
      assert p[k] in p;
    }
  }

  // ---------------------------------------------------------------- lookups

  /** A non-empty table; flag entries are powers of two. */
  datatype Table = Table(values: seq<int>, s: Subtype) {
    ghost predicate Valid() {
      && values != [] && Increasing(values)
      && (s.Flags? ==> forall i :: 0 <= i < |values| ==> PowerOfTwo(values[i]))
    }

    /** The first and last entry, as bit positions for flags. */
    function Min(): int requires values != [] { Scale(values[0]) }

    function Max(): int requires values != [] { Scale(values[|values| - 1]) }

    function Scale(v: int): int { if s.Flags? then (if v < 0 then 0 else FloorLog2(v)) else v }

    predicate Sparse() requires values != [] { Gapped(Min(), Max(), |values|) }
  }

  ghost predicate PowerOfTwo(v: int)
  {
    v > 0 && v == Pow2(FloorLog2(v))
  }

  lemma {:induction false} FloorLog2Increasing(a: int, b: int)
    requires PowerOfTwo(a) && PowerOfTwo(b) && a < b
    ensures FloorLog2(a) < FloorLog2(b)
  {
    if FloorLog2(b) <= FloorLog2(a) { Pow2Monotone(FloorLog2(b), FloorLog2(a)); }
  }

  /** The entries as positions: themselves, or the bits of flags. */
  function Scaled(t: Table): (s: seq<int>)
    ensures |s| == |t.values| && forall i :: 0 <= i < |s| ==> s[i] == t.Scale(t.values[i])
  {
    seq(|t.values|, i requires 0 <= i < |t.values| => t.Scale(t.values[i]))
  }

  lemma ScaledIncreases(t: Table)
    requires t.Valid()
    ensures Increasing(Scaled(t))
  {
    forall j, k | 0 <= j < k < |t.values| ensures Scaled(t)[j] < Scaled(t)[k] {
      if t.s.Flags? { FloorLog2Increasing(t.values[j], t.values[k]); }
    }
  }

  /** A table is sparse exactly when its positions are not consecutive. */
  lemma SparseIff(t: Table)
    requires t.Valid()
    ensures t.Sparse() <==> !forall i :: 0 <= i < |t.values| ==> t.Scale(t.values[i]) == t.Min() + i
  {
    ScaledIncreases(t);
    GappedIff(Scaled(t));
    assert forall i :: 0 <= i < |t.values| ==> Scaled(t)[i] == t.Scale(t.values[i]);
  }

  /** A table that is not sparse has no gaps. */
  lemma DenseIsContiguous(t: Table, i: nat)
    requires t.Valid() && !t.Sparse() && i < |t.values|
    ensures t.Scale(t.values[i]) == t.Min() + i
    ensures t.values[i] == if t.s.Flags? then Pow2(FloorLog2(t.values[0]) + i) else t.values[0] + i
  {
    SparseIff(t);
  }

  /** `enum_value`: table lookup when there are gaps, arithmetic otherwise. */
  function EnumValue(t: Table, i: nat): int
    requires t.Valid() && i < |t.values|
  {
    if t.Sparse() then t.values[i] else Candidate(t.s, t.Min(), i)
  }

  lemma EnumValueIsEntry(t: Table, i: nat)
    requires t.Valid() && i < |t.values|
    ensures EnumValue(t, i) == t.values[i]
  {
    if !t.Sparse() { DenseIsContiguous(t, i); }
  }

  /** `enum_index`: a search for sparse tables and flags, a range test and a subtraction otherwise. */
  method EnumIndex(t: Table, value: int) returns (r: Option<nat>)
    requires t.Valid()
    ensures r.Some? ==> r.value < |t.values| && t.values[r.value] == value
    ensures r.None? ==> value !in t.values
  {
    if t.Sparse() || t.s.Flags? {
      for i := 0 to |t.values|
        invariant value !in t.values[..i]
      {
        EnumValueIsEntry(t, i);
        if EnumValue(t, i) == value { return Some(i); }
      }
      return None;
    }
    if t.values[0] <= value <= t.values[|t.values| - 1] {
      DenseIsContiguous(t, value - t.values[0]);
      return Some(value - t.values[0]);
    }
    forall i | 0 <= i < |t.values| ensures t.values[i] != value {
      DenseIsContiguous(t, i);
    }
    return None;
  }

  /** `enum_cast` from an integer: it succeeds exactly on the declared values. */
  method EnumCast(t: Table, value: int) returns (r: Option<int>)
    requires t.Valid()
    ensures r == if value in t.values then Some(value) else None
  {
    if t.Sparse() || t.s.Flags? {
      for i := 0 to |t.values|
        invariant value !in t.values[..i]
      {
        EnumValueIsEntry(t, i);
        if value == EnumValue(t, i) { return Some(value); }
      }
      return None;
    }
    if t.values[0] <= value <= t.values[|t.values| - 1] {
      DenseIsContiguous(t, value - t.values[0]);
      return Some(value);
    }
    forall i | 0 <= i < |t.values| ensures t.values[i] != value {
      DenseIsContiguous(t, i);
    }
    return None;
  }
}
