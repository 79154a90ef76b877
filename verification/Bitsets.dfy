/** `bitset`: a set of enumerators kept in packed words. The enumerators are given in the order
    of the index; `at` is the position of one in that order. */
module Bitsets {
  import opened Wrappers
  import opened BitMath
  import opened PackedBits
  import opened Indexing
  import opened Flags

  datatype Error = OutOfRange | InvalidArgument | Overflow

  function Position(order: seq<int>, v: int): (i: Option<nat>)
    ensures i.Some? ==> i.value < |order| && order[i.value] == v
    ensures i.None? ==> v !in order
  {
    var k := IndexOf(order, v);
    if k < |order| then Some(k) else None
  }

  class Bitset {
    const order: seq<int>
    const a: array<nat>

    ghost predicate Valid()
      reads this, a
    {
      Sh().Fits(a[..])
    }

    function Sh(): Shape { Shape(|order|) }

    /** The members, as positions in the order of the index. */
    ghost function Members(): (s: set<nat>)
      requires Valid()
      reads this, a
      ensures forall k :: k in s ==> k < |order|
    {
      Sh().Members(a[..])
    }

    constructor (order: seq<int>)
      requires order != []
      ensures Valid() && fresh(a) && this.order == order && Members() == {}
    {
      this.order := order;
      this.a := new nat[Shape(|order|).Words()](_ => 0);
      new;
      ZeroWords(Sh(), a[..]);
    }

    /** `const_reference` at a position. */
    predicate Get(k: nat)
      requires Valid() && k < |order|
      reads this, a
      ensures Get(k) <==> k in Members()
    {
      Sh().Within(k);
      assert k in Members() <==> Sh().Has(a[..], k);
      Bit(a[k / Sh().W()], k % Sh().W())
    }

    /** Assignment to `reference` at a position. */
    method Put(k: nat, value: bool)
      requires Valid() && k < |order|
      modifies a
      ensures Valid()
      ensures Members() == if value then old(Members()) + {k} else old(Members()) - {k}
    {
      var w := Sh().W();
      Sh().Within(k);
      ghost var before := a[..];
      var j, bit := k / w, Pow2(k % w);
      ghost var x := a[j];
      WriteWord(x, k % w, w, Sh().Cap(j), value);
      if value {
        a[j] := Or(a[j], bit);
      } else {
        a[j] := And(a[j], Not(bit, w));
      }
      assert a[j] == WordAfter(x, k % w, w, value);
      Sh().WriteBit(before, k, value, a[j], j);
      assert a[..] == before[j := a[j]];
    }

    method Test(v: int) returns (r: Result<bool, Error>)
      requires Valid()
      ensures r == match Position(order, v) case Some(k) => Ok(k in Members()) case None => Err(OutOfRange)
    {
      match Position(order, v)
      case Some(k) => return Ok(Get(k));
      case None => return Err(OutOfRange);
    }

    method Set(v: int, value: bool) returns (error: Option<Error>)
      requires Valid()
      modifies a
      ensures Valid()
      ensures match Position(order, v)
              case None => error == Some(OutOfRange) && Members() == old(Members())
              case Some(k) => error == None && Members() == if value then old(Members()) + {k} else old(Members()) - {k}
    {
      match Position(order, v)
      case Some(k) => Put(k, value); return None;
      case None => return Some(OutOfRange);
    }

    method Equal(other: Bitset) returns (r: bool)
      requires Valid() && other.Valid() && order == other.order
      ensures r <==> Members() == other.Members()
    {
      for i := 0 to a.Length
        invariant a[..i] == other.a[..i]
      {
        if a[i] != other.a[i] {
          assert a[..][i] != other.a[..][i];
          if Members() == other.Members() { Sh().SameMembers(a[..], other.a[..]); }
          return false;
        }
      }
      assert a[..] == other.a[..];
      return true;
    }

    method Any() returns (r: bool)
      requires Valid()
      ensures r <==> Members() != {}
    {
      for i := 0 to a.Length
        invariant forall j :: 0 <= j < i ==> a[j] == 0
      {
        if a[i] > 0 {
          ZeroWords(Sh(), seq(a.Length, _ => 0));
          if Members() == {} { Sh().SameMembers(a[..], seq(a.Length, _ => 0)); }
          return true;
        }
      }
      ZeroWords(Sh(), a[..]);
      return false;
    }

    method Count() returns (c: nat)
      requires Valid()
      ensures c == |Members()|
    {
      c := 0;
      for i := 0 to a.Length
        invariant c == SumCounts(a[..i])
      {
        var p := PopCountLoop(a[i]);
        assert a[..i + 1][..i] == a[..i];
        c := c + p;
      }
      assert a[..a.Length] == a[..];
      CountIsCardinality(Sh(), a[..]);
    }

    /** `all`. On words of 8 or 16 bits `~` yields a promoted, never-zero value; without spare bits
        the function has no final return (`None`). The answer is right exactly when there are
        spare bits or some enumerator is missing. */
    method AllSet() returns (r: Option<bool>)
      requires Valid()
      ensures r == Some(Members() == Sh().All()) <==> Sh().Spare() > 0 || Members() != Sh().All()
      ensures Sh().Spare() == 0 && Members() == Sh().All() ==> r == if Sh().W() < 32 then Some(false) else None
    {
      var w, words := Sh().W(), a.Length;
      var whole := if Sh().Spare() > 0 then words - 1 else words;
      FullWords(Sh(), a[..]);
      for i := 0 to whole
        invariant forall j :: 0 <= j < i ==> a[j] == Pow2(Sh().Cap(j)) - 1
        invariant i > 0 ==> w >= 32
      {
        var check := w < 32 || Not(a[i], w) != 0;
        if check { return Some(false); }
      }
      if Sh().Spare() > 0 {
        return Some(a[words - 1] == Pow2(w - Sh().Spare()) - 1);
      }
      return None;
    }

    /** The compound assignments `&=`, `|=` and `^=`; the argument may be the bitset itself. */
    method Assign(g: Gate, other: Bitset)
      requires Valid() && other.Valid() && order == other.order && (a == other.a ==> this == other)
      modifies a
      ensures Valid()
      ensures Members() == match g
                           case AndGate => old(Members()) * old(other.Members())
                           case OrGate => old(Members()) + old(other.Members())
                           case XorGate => (old(Members()) - old(other.Members())) + (old(other.Members()) - old(Members()))
    {
      ghost var xs, ys := a[..], other.a[..];
      for i := 0 to a.Length
        invariant forall j :: 0 <= j < i ==> a[j] == Bitwise(g, xs[j], ys[j])
        invariant forall j :: i <= j < a.Length ==> a[j] == xs[j] && other.a[j] == ys[j]
      {
        a[i] := Bitwise(g, a[i], other.a[i]);
      }
      Sh().Combine(g, xs, ys, a[..]);
    }

    /** `operator~`. */
    method Complement() returns (res: Bitset)
      requires Valid()
      ensures fresh(res) && fresh(res.a) && res.Valid() && res.order == order
      ensures res.Members() == Sh().All() - Members()
    {
      res := new Bitset(order);
      var w, words := Sh().W(), a.Length;
      var whole := if Sh().Spare() > 0 then words - 1 else words;
      ghost var xs := a[..];
      for i := 0 to whole
        invariant a[..] == xs
        invariant forall j :: 0 <= j < i ==> res.a[j] == Not(xs[j], Sh().Cap(j))
      {
        res.a[i] := Not(a[i], w);
      }
      if Sh().Spare() > 0 {
        var last, c := words - 1, w - Sh().Spare();
        Pow2Monotone(c, w);
        MaskedNot(a[last], w, c);
        res.a[last] := And(Not(a[last], w), Pow2(c) - 1);
      }
      Sh().Complement(a[..], res.a[..]);
    }

    /** `set()` with no argument. */
    method SetAll()
      requires Valid()
      modifies a
      ensures Valid() && Members() == Sh().All()
    {
      var w, words := Sh().W(), a.Length;
      var whole := if Sh().Spare() > 0 then words - 1 else words;
      for i := 0 to whole
        invariant forall j :: 0 <= j < i ==> a[j] == Pow2(Sh().Cap(j)) - 1
      {
        a[i] := Not(0, w);
      }
      if Sh().Spare() > 0 {
        a[words - 1] := Pow2(w - Sh().Spare()) - 1;
      }
      FullWords(Sh(), a[..]);
    }

    method Reset()
      requires Valid()
      modifies a
      ensures Valid() && Members() == {}
    {
      forall i | 0 <= i < a.Length { a[i] := 0; }
      ZeroWords(Sh(), a[..]);
    }

    // -------------------------------------------------------------- encodings

    /** `to_<T>` for a type of `bits` bits. */
    method ToInteger(bits: nat) returns (r: Result<nat, Error>)
      requires Valid()
      ensures match r
              case Ok(value) => Encodes(Sh(), a[..], value) && value < Pow2(bits)
              case Err(e) => e == Overflow && exists k :: k in Members() && bits <= k
    {
      var res, flag := 0, 1;
      forall k: nat ensures !Bit(0, k) { BitOfZero(k); }
      for i := 0 to |order|
        invariant i <= bits ==> flag == Pow2(i)
        invariant forall k: nat :: Bit(res, k) <==> k < i && k in Members()
        invariant forall k :: k in Members() && k < i ==> k < bits
      {
        if Get(i) {
          if i >= bits { return Err(Overflow); }
          OrFlag(res, i);
          res := Or(res, flag);
        }
        flag := 2 * flag;
      }
      FitsIffHighBitsClear(res, bits);
      return Ok(res);
    }

    /** The constructor from an unsigned integer of `bits` bits. */
    static method FromInteger(order: seq<int>, value: nat, bits: nat) returns (r: Result<Bitset, Error>)
      requires order != [] && value < Pow2(bits)
      ensures match r
              case Ok(b) => fresh(b) && fresh(b.a) && b.order == order && b.Valid() && Encodes(b.Sh(), b.a[..], value)
              case Err(e) => e == OutOfRange && Pow2(|order|) <= value
    {
      var b := new Bitset(order);
      for i := 0 to bits
        invariant b.Valid()
        invariant forall k: nat :: k in b.Members() <==> k < i && Bit(value, k)
        invariant forall k: nat :: k < i && Bit(value, k) ==> k < |order|
      {
        if Bit(value, i) {
          if i >= |order| {
            FitsIffHighBitsClear(value, |order|);
            return Err(OutOfRange);
          }
          b.Put(i, true);
        }
      }
      FitsIffHighBitsClear(value, bits);
      forall k: nat ensures Bit(value, k) <==> b.Sh().Has(b.a[..], k) {
        assert k in b.Members() <==> k < bits && Bit(value, k);
        assert b.Sh().Has(b.a[..], k) <==> k in b.Members();
      }
      return Ok(b);
    }

    /** `to_string` in raw form: one character for each position. */
    method ToRawString(zero: char, one: char) returns (text: string)
      requires Valid()
      ensures RawImage(text, |order|, Members(), zero, one)
    {
      text := "";
      for i := 0 to |order|
        invariant RawImage(text, i, Members(), zero, one)
      {
        text := text + [if Get(i) then one else zero];
      }
    }

    /** The constructor from a raw string, of which it uses `count` characters from `pos`. */
    static method FromRawString(order: seq<int>, text: string, pos: nat, count: nat, zero: char, one: char)
      returns (r: Result<Bitset, Error>)
      requires order != []
      ensures pos > |text| ==> r == Err(OutOfRange)
      ensures pos <= |text| ==>
                var s := Substring(text, pos, count);
                match r
                case Ok(b) => fresh(b) && fresh(b.a) && b.order == order && b.Valid() &&
                              RawAccepts(s, |order|, zero, one) && b.Members() == RawMembers(s, one)
                case Err(e) => exists k :: 0 <= k < |s| && RawAccepts(s[..k], |order|, zero, one) &&
                                           RawError(s[k], k, |order|, zero, one) == Some(e)
    {
      if pos > |text| { return Err(OutOfRange); }
      var s := Substring(text, pos, count);
      var b := new Bitset(order);
      for i := 0 to |s|
        invariant b.Valid()
        invariant RawAccepts(s[..i], |order|, zero, one) && b.Members() == RawMembers(s[..i], one)
      {
        RawNext(s, i, |order|, zero, one);
        if s[i] == one {
          if i >= |order| { return Err(OutOfRange); }
          b.Put(i, true);
        } else {
          if s[i] != zero { return Err(InvalidArgument); }
        }
      }
      assert s[..|s|] == s;
      return Ok(b);
    }

    /** The conversion to a flag value: the union of the members. */
    method ToFlags(t: FlagTable) returns (res: nat)
      requires Valid() && Indexes(order, t)
      ensures FlagEncodes(t, order, Members(), res)
    {
      res := 0;
      forall k: nat ensures !Bit(0, k) { BitOfZero(k); }
      for i := 0 to t.Count()
        invariant forall b: nat :: Bit(res, b) ==> b in t.bits[..i]
        invariant forall j :: 0 <= j < i ==> (Bit(res, t.bits[j]) <==> PositionOf(order, t, j) in Members())
      {
        assert t.bits[..i + 1] == t.bits[..i] + [t.bits[i]];
        if Get(PositionOf(order, t, i)) {
          OrFlag(res, t.bits[i]);
          res := Or(res, t.Value(i));
        }
      }
      assert t.bits[..t.Count()] == t.bits;
    }

    /** The constructor from a flag value held in `w` bits. */
    static method FromFlags(order: seq<int>, t: FlagTable, starter: nat, w: nat) returns (r: Result<Bitset, Error>)
      requires order != [] && Indexes(order, t) && starter < Pow2(w)
      requires forall i :: 0 <= i < t.Count() ==> t.bits[i] < w
      ensures match r
              case Ok(b) => fresh(b) && fresh(b.a) && b.order == order && b.Valid() &&
                            FlagEncodes(t, order, b.Members(), starter)
              case Err(e) => e == InvalidArgument && exists k: nat :: Bit(starter, k) && k !in t.bits
    {
      var b := new Bitset(order);
      var u: nat := starter;
      for i := 0 to t.Count()
        invariant b.Valid() && u < Pow2(w)
        invariant forall k: nat :: Bit(u, k) <==> Bit(starter, k) && k !in t.bits[..i]
        invariant forall j :: 0 <= j < i ==> (Bit(starter, t.bits[j]) <==> PositionOf(order, t, j) in b.Members())
        invariant forall k :: k in b.Members() ==> exists j :: 0 <= j < i && PositionOf(order, t, j) == k
      {
        assert t.bits[..i + 1] == t.bits[..i] + [t.bits[i]];
        AndFlag(u, t.bits[i]);
        PositionsDiffer(order, t, i);
        assert t.bits[i] !in t.bits[..i];
        if And(t.Value(i), u) != 0 {
          BitwiseCommutes(AndGate, t.Value(i), u);
          ClearFlag(u, t.bits[i], w);
          u := And(u, Not(t.Value(i), w));
          b.Put(PositionOf(order, t, i), true);
        } else {
          BitwiseCommutes(AndGate, t.Value(i), u);
        }
      }
      assert t.bits[..t.Count()] == t.bits;
      if u != 0 {
        if forall k: nat :: !Bit(u, k) {
          forall k: nat ensures Bit(u, k) == Bit(0, k) { BitOfZero(k); }
          SameBits(u, 0);
        }
        return Err(InvalidArgument);
      }
      forall k: nat ensures !Bit(0, k) { BitOfZero(k); }
      return Ok(b);
    }
  }

  // ---------------------------------------------------------------- raw strings

  /** `sv.substr(pos, count)`. */
  function Substring(text: string, pos: nat, count: nat): string
    requires pos <= |text|
  {
    if count < |text| - pos then text[pos..pos + count] else text[pos..]
  }

  /** The error a character of a raw string causes, if any. */
  function RawError(c: char, k: nat, n: nat, zero: char, one: char): (e: Option<Error>)
    ensures e == Some(OutOfRange) <==> c == one && k >= n
    ensures e == Some(InvalidArgument) <==> c != one && c != zero
    ensures e != Some(Overflow)
  {
    if c == one then (if k >= n then Some(OutOfRange) else None)
    else if c != zero then Some(InvalidArgument)
    else None
  }

  ghost predicate RawAccepts(s: string, n: nat, zero: char, one: char)
  {
    forall k :: 0 <= k < |s| ==> RawError(s[k], k, n, zero, one) == None
  }

  ghost function RawMembers(s: string, one: char): set<nat>
  {
    set k: nat | k < |s| && s[k] == one
  }

  lemma RawNext(s: string, i: nat, n: nat, zero: char, one: char)
    requires i < |s|
    ensures RawAccepts(s[..i + 1], n, zero, one) <==> RawAccepts(s[..i], n, zero, one) && RawError(s[i], i, n, zero, one) == None
    ensures RawMembers(s[..i + 1], one) == RawMembers(s[..i], one) + (if s[i] == one then {i} else {})
  {
    var more := s[..i + 1];
    assert forall k :: 0 <= k < i ==> more[k] == s[..i][k];
    assert more[i] == s[i];
  }

  ghost predicate RawImage(s: string, n: nat, members: set<nat>, zero: char, one: char)
  {
    |s| == n && forall k :: 0 <= k < n ==> s[k] == if k in members then one else zero
  }

  /** Reading back a printed raw string is accepted and gives the members back. */
  lemma RawRoundTrip(s: string, n: nat, members: set<nat>, zero: char, one: char)
    requires zero != one && RawImage(s, n, members, zero, one) && forall k :: k in members ==> k < n
    ensures RawAccepts(s, n, zero, one) && RawMembers(s, one) == members
    ensures Substring(s, 0, n) == s
  {
    forall k: nat ensures k in RawMembers(s, one) <==> k in members {}
  }

  // ---------------------------------------------------------------- flag values

  /** The order lists exactly the declared flags. */
  ghost predicate Indexes(order: seq<int>, t: FlagTable)
  {
    && t.Valid() && |order| == t.Count()
    && (forall i :: 0 <= i < t.Count() ==> t.Value(i) in order)
    && (forall k: nat :: k < |order| ==> Listed(order, t, k))
  }

  /** Position `k` of the order is that of a declared flag. */
  ghost predicate Listed(order: seq<int>, t: FlagTable, k: nat)
  {
    exists i :: 0 <= i < t.Count() && PositionOf(order, t, i) == k
  }

  /** Position of the `i`-th declared flag. */
  function PositionOf(order: seq<int>, t: FlagTable, i: nat): (k: nat)
    requires i < t.Count()
    ensures t.Value(i) in order ==> k < |order| && order[k] == t.Value(i)
  {
    match Position(order, t.Value(i)) case Some(k) => k case None => |order|
  }

  lemma PositionsDiffer(order: seq<int>, t: FlagTable, i: nat)
    requires Indexes(order, t) && i < t.Count()
    ensures forall j :: 0 <= j < t.Count() && j != i ==> PositionOf(order, t, j) != PositionOf(order, t, i)
  {
    forall j | 0 <= j < t.Count() && j != i ensures PositionOf(order, t, j) != PositionOf(order, t, i) {
      if j < i { Pow2Increasing(t.bits[j], t.bits[i]); } else { Pow2Increasing(t.bits[i], t.bits[j]); }
    }
  }

  ghost predicate FlagEncodes(t: FlagTable, order: seq<int>, members: set<nat>, value: nat)
    requires t.Valid()
  {
    && (forall b: nat :: Bit(value, b) ==> b in t.bits)
    && (forall j :: 0 <= j < t.Count() ==> (Bit(value, t.bits[j]) <==> PositionOf(order, t, j) in members))
  }

  /** A set of flags and its value determine each other. */
  lemma FlagRoundTrip(t: FlagTable, order: seq<int>, members: set<nat>, value: nat, others: set<nat>, other: nat)
    requires Indexes(order, t) && FlagEncodes(t, order, members, value) && FlagEncodes(t, order, others, other)
    requires forall k :: k in members + others ==> k < |order|
    ensures members == others <==> value == other
  {
    if members == others {
      forall b: nat ensures Bit(value, b) == Bit(other, b) {
        if b in t.bits { var j :| 0 <= j < t.Count() && t.bits[j] == b; }
      }
      SameBits(value, other);
    }
    if value == other {
      forall k: nat ensures k in members <==> k in others {
        if k in members + others {
          assert Listed(order, t, k);
          var j :| 0 <= j < t.Count() && PositionOf(order, t, j) == k;
        }
      }
    }
  }

  lemma ClearFlag(u: nat, b: nat, w: nat)
    requires b < w && u < Pow2(w)
    ensures Pow2(b) < Pow2(w) && And(u, Not(Pow2(b), w)) < Pow2(w)
    ensures forall k: nat :: Bit(And(u, Not(Pow2(b), w)), k) <==> Bit(u, k) && k != b
  {
    WriteWord(u, b, w, w, false);
    var r := And(u, Not(Pow2(b), w));
    forall k: nat ensures Bit(r, k) <==> Bit(u, k) && k != b {
      if k >= w {
        HighBitClear(u, w, k);
        HighBitClear(r, w, k);
      } else {
        assert Bit(WordAfter(u, b, w, false), k) == if k == b then false else Bit(u, k);
      }
    }
  }
}
