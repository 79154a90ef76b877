/** Packing the indices of several enumerators into one 64-bit number. */
module Fuse {
  import opened Wrappers
  import opened BitMath
  import opened Arith

  /** Width of `std::uintmax_t`. */
  const WIDTH: nat := 64

  function FloorLog2(v: nat): nat
  {
    if v <= 1 then 0 else 1 + FloorLog2(v / 2)
  }

  /** The shifting loop of `log2`. */
  method Log2(v: nat) returns (ret: nat)
    ensures ret == FloorLog2(v)
    ensures v >= 1 ==> Pow2(ret) <= v < Pow2(ret + 1)
  {
    ret := 0;
    var value := v;
    while value > 1
      invariant ret + FloorLog2(value) == FloorLog2(v)
    {
      value, ret := value / 2, ret + 1;
    }
    if v >= 1 { FloorLog2Bounds(v); }
  }

  lemma {:induction false} FloorLog2Bounds(v: nat)
    requires v >= 1
    ensures Pow2(FloorLog2(v)) <= v < Pow2(FloorLog2(v) + 1)
  {
    if v > 1 { FloorLog2Bounds(v / 2); }
  }

  /** The number of bits reserved for an index into an enum of `count` values. */
  function IndexBits(count: nat): nat
    requires count > 0
  {
    FloorLog2(2 * count - 1)
  }

  /** The reserved width is the least one that holds every index. */
  lemma IndexBitsLeast(count: nat, b: nat)
    requires count > 0
    ensures count <= Pow2(b) <==> IndexBits(count) <= b
  {
    var bits := IndexBits(count);
    FloorLog2Bounds(2 * count - 1);
    if bits <= b {
      Pow2Monotone(bits, b);
    } else {
      Pow2Monotone(b + 1, bits);
    }
  }

  ghost predicate Positive(counts: seq<nat>)
  {
    forall i :: 0 <= i < |counts| ==> counts[i] > 0
  }

  function FuseOne(hash: Option<nat>, count: nat, index: Option<nat>): Option<nat>
    requires count > 0
  {
    if hash.Some? && index.Some?
    then Some(Or(hash.value * Pow2(IndexBits(count)) % Pow2(WIDTH), index.value))
    else None
  }

  /** The first argument occupies the lowest bits, the last one the highest. */
  function FuseEnum(counts: seq<nat>, indices: seq<Option<nat>>): Option<nat>
    requires |counts| == |indices| > 0 && Positive(counts)
  {
    FuseOne(if |counts| == 1 then Some(0) else FuseEnum(counts[1..], indices[1..]), counts[0], indices[0])
  }

  ghost predicate IndexTuple(counts: seq<nat>, t: seq<nat>)
  {
    |counts| == |t| && forall i :: 0 <= i < |t| ==> t[i] < counts[i]
  }

  function Enumerators(t: seq<nat>): (e: seq<Option<nat>>)
    ensures |e| == |t| && forall i :: 0 <= i < |t| ==> e[i] == Some(t[i])
  {
    seq(|t|, i requires 0 <= i < |t| => Some(t[i]))
  }

  /** The value the packing would have in a word without a width limit. */
  ghost function Pack(counts: seq<nat>, t: seq<nat>): nat
    requires IndexTuple(counts, t)
  {
    if counts == [] then 0 else Pack(counts[1..], t[1..]) * Pow2(IndexBits(counts[0])) + t[0]
  }

  ghost function LargestTuple(counts: seq<nat>): (t: seq<nat>)
    requires Positive(counts)
    ensures IndexTuple(counts, t)
  {
    seq(|counts|, i requires 0 <= i < |counts| => counts[i] - 1)
  }

  ghost function ZeroTuple(counts: seq<nat>): (t: seq<nat>)
    requires Positive(counts)
    ensures IndexTuple(counts, t)
  {
    seq(|counts|, _ => 0)
  }

  ghost function TotalBits(counts: seq<nat>): nat
    requires Positive(counts)
  {
    if counts == [] then 0 else IndexBits(counts[0]) + TotalBits(counts[1..])
  }

  /** At least one argument, no empty enum, and every shift distance below the word width. */
  ghost predicate FitsWord(counts: seq<nat>)
  {
    |counts| > 0 && Positive(counts) && forall i :: 0 <= i < |counts| ==> IndexBits(counts[i]) < WIDTH
  }

  /** No two index tuples share a fused value. */
  ghost predicate FusesInjectively(counts: seq<nat>)
    requires |counts| > 0 && Positive(counts)
  {
    forall t, u ::
      (&& IndexTuple(counts, t)
       && IndexTuple(counts, u)
       && FuseEnum(counts, Enumerators(t)) == FuseEnum(counts, Enumerators(u)))
      ==> t == u
  }

  /** Scaling commutes with taking remainders. */
  lemma ScaledRemainder(h: nat, p: nat, m: nat, low: nat)
    requires m > 0 && low < p
    ensures (h * p + low) % (m * p) == h % m * p + low
  {
    DivModDef(h, m);
    MulDist(h / m * m, h % m, p);
    MulAssoc(h / m, m, p);
    ShiftFits(h % m, p, low, m);
    DivModUnique(h / m, m * p, h % m * p + low);
  }

  /** Shifting within a word of `w` bits and or-ing in `low` drops what leaves the word. */
  lemma ShiftWraps(h: nat, b: nat, w: nat, low: nat)
    requires b <= w && low < Pow2(b)
    ensures Or(h * Pow2(b) % Pow2(w), low) == (h * Pow2(b) + low) % Pow2(w)
  {
    Pow2Sum(w - b, b);
    ScaledRemainder(h, Pow2(b), Pow2(w - b), 0);
    ScaledRemainder(h, Pow2(b), Pow2(w - b), low);
    OrShifted(h % Pow2(w - b), b, low);
  }

  lemma ModOfSum(q: nat, m: nat, z: nat)
    requires m > 0
    ensures (q * m + z) % m == z % m
  {
    DivModDef(z, m);
    MulDist(q, z / m, m);
    DivModUnique(q + z / m, m, z % m);
    DivModUnique(z / m, m, z % m);
  }

  /** Reducing before shifting changes nothing modulo the word. */
  lemma ReduceFirst(x: nat, p: nat, m: nat, low: nat)
    requires m > 0
    ensures (x % m * p + low) % m == (x * p + low) % m
  {
    var q := x / m;
    DivModDef(x, m);
    MulDist(q * m, x % m, p);
    assert q * m * p == q * p * m by { MulAssoc(q, m, p); MulAssoc(q, p, m); }
    ModOfSum(q * p, m, x % m * p + low);
  }

  /** Fusing fails exactly when some argument is not a declared enumerator. */
  lemma {:induction false} FuseFailsOnUnknown(counts: seq<nat>, indices: seq<Option<nat>>)
    requires |counts| == |indices| > 0 && Positive(counts)
    ensures FuseEnum(counts, indices) == None <==> None in indices
  {
    if |counts| > 1 {
      FuseFailsOnUnknown(counts[1..], indices[1..]);
      assert indices == [indices[0]] + indices[1..];
    }
  }

  /** In a 64-bit word the fused value is the unlimited packing modulo 2^64. */
  lemma {:induction false} FuseIsPackModWord(counts: seq<nat>, t: seq<nat>)
    requires FitsWord(counts) && IndexTuple(counts, t)
    ensures FuseEnum(counts, Enumerators(t)) == Some(Pack(counts, t) % Pow2(WIDTH))
  {
    var b := IndexBits(counts[0]);
    IndexBitsLeast(counts[0], b);
    if |counts| == 1 {
      ShiftWraps(0, b, WIDTH, t[0]);
      assert Pack(counts[1..], t[1..]) == 0;
    } else {
      FuseIsPackModWord(counts[1..], t[1..]);
      assert Enumerators(t)[1..] == Enumerators(t[1..]);
      var h := Pack(counts[1..], t[1..]);
      ShiftWraps(h % Pow2(WIDTH), b, WIDTH, t[0]);
      ReduceFirst(h, Pow2(b), Pow2(WIDTH), t[0]);
    }
  }

  lemma {:induction false} PackInjective(counts: seq<nat>, t: seq<nat>, u: seq<nat>)
    requires Positive(counts) && IndexTuple(counts, t) && IndexTuple(counts, u)
    requires Pack(counts, t) == Pack(counts, u)
    ensures t == u
  {
    if counts != [] {
      var b := IndexBits(counts[0]);
      IndexBitsLeast(counts[0], b);
      DivModUnique(Pack(counts[1..], t[1..]), Pow2(b), t[0]);
      DivModUnique(Pack(counts[1..], u[1..]), Pow2(b), u[0]);
      PackInjective(counts[1..], t[1..], u[1..]);
      assert t == [t[0]] + t[1..] && u == [u[0]] + u[1..];
    }
  }

  /** Shifting out the widths of the arguments before it and masking with its own width recovers an
      index from the packing. */
  lemma {:induction false} UnpackAt(counts: seq<nat>, t: seq<nat>, i: nat)
    requires Positive(counts) && IndexTuple(counts, t) && i < |counts|
    ensures Positive(counts[..i])
    ensures Pack(counts, t) / Pow2(TotalBits(counts[..i])) % Pow2(IndexBits(counts[i])) == t[i]
  {
    var b, rest := IndexBits(counts[0]), Pack(counts[1..], t[1..]);
    IndexBitsLeast(counts[0], b);
    DivModUnique(rest, Pow2(b), t[0]);
    if i > 0 {
      UnpackAt(counts[1..], t[1..], i - 1);
      assert counts[..i][1..] == counts[1..][..i - 1];
      Pow2Sum(b, TotalBits(counts[1..][..i - 1]));
      DivideTwice(Pack(counts, t), Pow2(b), Pow2(TotalBits(counts[1..][..i - 1])));
    }
  }

  /** The first argument occupies the lowest bits of the fused number, each further one those above. */
  lemma FusedIndexRecovered(counts: seq<nat>, t: seq<nat>, i: nat)
    requires FitsWord(counts) && Pack(counts, LargestTuple(counts)) < Pow2(WIDTH)
    requires IndexTuple(counts, t) && i < |counts|
    ensures Positive(counts[..i]) && FuseEnum(counts, Enumerators(t)).Some?
    ensures FuseEnum(counts, Enumerators(t)).value / Pow2(TotalBits(counts[..i])) % Pow2(IndexBits(counts[i])) == t[i]
  {
    FuseIsPackModWord(counts, t);
    PackAtMostLargest(counts, t);
    DivModUnique(0, Pow2(WIDTH), Pack(counts, t));
    UnpackAt(counts, t, i);
  }

  lemma {:induction false} PackAtMostLargest(counts: seq<nat>, t: seq<nat>)
    requires Positive(counts) && IndexTuple(counts, t)
    ensures Pack(counts, t) <= Pack(counts, LargestTuple(counts))
  {
    if counts != [] {
      PackAtMostLargest(counts[1..], t[1..]);
      assert LargestTuple(counts)[1..] == LargestTuple(counts[1..]);
      MulLe(Pack(counts[1..], t[1..]), Pack(counts[1..], LargestTuple(counts[1..])), Pow2(IndexBits(counts[0])));
    }
  }

  lemma {:induction false} PackZero(counts: seq<nat>)
    requires Positive(counts)
    ensures Pack(counts, ZeroTuple(counts)) == 0
  {
    if counts != [] {
      assert ZeroTuple(counts)[1..] == ZeroTuple(counts[1..]);
      PackZero(counts[1..]);
    }
  }

  lemma {:induction false} PackFitsTotal(counts: seq<nat>, t: seq<nat>)
    requires Positive(counts) && IndexTuple(counts, t)
    ensures Pack(counts, t) < Pow2(TotalBits(counts))
  {
    if counts != [] {
      var b := IndexBits(counts[0]);
      IndexBitsLeast(counts[0], b);
      PackFitsTotal(counts[1..], t[1..]);
      var h, m := Pack(counts[1..], t[1..]), Pow2(TotalBits(counts[1..]));
      Pow2Sum(b, TotalBits(counts[1..]));
      ShiftFits(h, Pow2(b), t[0], m);
    }
  }

  /** If the lowest index fits, it is the rest that overflows. */
  lemma RestOverflows(counts: seq<nat>, w: nat)
    requires |counts| > 1 && Positive(counts) && IndexBits(counts[0]) <= w
    requires Pow2(w) <= Pack(counts, LargestTuple(counts))
    ensures Pow2(w - IndexBits(counts[0])) <= Pack(counts[1..], LargestTuple(counts[1..]))
  {
    var b, h := IndexBits(counts[0]), Pack(counts[1..], LargestTuple(counts[1..]));
    assert LargestTuple(counts)[1..] == LargestTuple(counts[1..]);
    IndexBitsLeast(counts[0], b);
    Pow2Sum(w - b, b);
    if h < Pow2(w - b) { ShiftFits(h, Pow2(b), LargestTuple(counts)[0], Pow2(w - b)); }
  }

  /** Shifting a multiple of 2^a by `b` gives a multiple of 2^(a+b). */
  lemma ShiftedMultiple(x: nat, a: nat, b: nat)
    requires x % Pow2(a) == 0
    ensures x * Pow2(b) % Pow2(a + b) == 0
  {
    var q := x / Pow2(a);
    DivModDef(x, Pow2(a));
    Pow2Sum(a, b);
    MulAssoc(q, Pow2(a), Pow2(b));
    DivModUnique(q, Pow2(a + b), 0);
  }

  /** If the lowest index alone overflows, setting the bit that leaves the word collides. */
  lemma LowestOverflows(counts: seq<nat>, w: nat)
    requires |counts| > 0 && Positive(counts) && Pow2(w) < counts[0]
    ensures var t := [Pow2(w)] + ZeroTuple(counts[1..]);
            IndexTuple(counts, t) && t != ZeroTuple(counts) && Pack(counts, t) == Pow2(w)
  {
    var t := [Pow2(w)] + ZeroTuple(counts[1..]);
    PackZero(counts[1..]);
    assert t[1..] == ZeroTuple(counts[1..]) && t[0] != ZeroTuple(counts)[0];
  }

  lemma LowestCollides(counts: seq<nat>, w: nat) returns (t: seq<nat>)
    requires |counts| > 0 && Positive(counts) && Pow2(w) < counts[0]
    ensures IndexTuple(counts, t) && t != ZeroTuple(counts) && Pack(counts, t) % Pow2(w) == 0
  {
    LowestOverflows(counts, w);
    t := [Pow2(w)] + ZeroTuple(counts[1..]);
    DivModUnique(1, Pow2(w), 0);
  }

  lemma RestCollides(counts: seq<nat>, w: nat, u: seq<nat>)
    requires |counts| > 1 && Positive(counts) && IndexBits(counts[0]) <= w && IndexTuple(counts[1..], u)
    requires u != ZeroTuple(counts[1..]) && Pack(counts[1..], u) % Pow2(w - IndexBits(counts[0])) == 0
    ensures var t := [0] + u;
            IndexTuple(counts, t) && t != ZeroTuple(counts) && Pack(counts, t) % Pow2(w) == 0
  {
    var t, b := [0] + u, IndexBits(counts[0]);
    assert t[1..] == u && ZeroTuple(counts)[1..] == ZeroTuple(counts[1..]);
    ShiftedMultiple(Pack(counts[1..], u), w - b, b);
  }

  /** A packing that overflows `w` bits has a non-zero tuple that packs to a multiple of 2^w. */
  lemma {:induction false} OverflowCollides(counts: seq<nat>, w: nat) returns (t: seq<nat>)
    requires |counts| > 0 && Positive(counts)
    requires Pow2(w) <= Pack(counts, LargestTuple(counts))
    ensures IndexTuple(counts, t) && t != ZeroTuple(counts)
    ensures Pack(counts, t) % Pow2(w) == 0
    decreases counts
  {
    if w < IndexBits(counts[0]) {
      IndexBitsLeast(counts[0], w);
      t := LowestCollides(counts, w);
    } else if |counts| == 1 {
      assert LargestTuple(counts)[1..] == [];
      t := LowestCollides(counts, w);
    } else {
      RestOverflows(counts, w);
      var u := OverflowCollides(counts[1..], w - IndexBits(counts[0]));
      RestCollides(counts, w, u);
      t := [0] + u;
    }
  }

  lemma EqualFusesEqualTuples(counts: seq<nat>, t: seq<nat>, u: seq<nat>)
    requires FitsWord(counts) && Pack(counts, LargestTuple(counts)) < Pow2(WIDTH)
    requires IndexTuple(counts, t) && IndexTuple(counts, u)
    requires FuseEnum(counts, Enumerators(t)) == FuseEnum(counts, Enumerators(u))
    ensures t == u
  {
    FuseIsPackModWord(counts, t);
    FuseIsPackModWord(counts, u);
    PackAtMostLargest(counts, t);
    PackAtMostLargest(counts, u);
    DivModUnique(0, Pow2(WIDTH), Pack(counts, t));
    DivModUnique(0, Pow2(WIDTH), Pack(counts, u));
    PackInjective(counts, t, u);
  }

  lemma OverflowingFuseCollides(counts: seq<nat>) returns (t: seq<nat>)
    requires FitsWord(counts) && Pow2(WIDTH) <= Pack(counts, LargestTuple(counts))
    ensures IndexTuple(counts, t) && t != ZeroTuple(counts)
    ensures FuseEnum(counts, Enumerators(t)) == FuseEnum(counts, Enumerators(ZeroTuple(counts)))
  {
    t := OverflowCollides(counts, WIDTH);
    PackZero(counts);
    DivModUnique(0, Pow2(WIDTH), 0);
    FuseIsPackModWord(counts, t);
    FuseIsPackModWord(counts, ZeroTuple(counts));
  }

  /** Fusing is injective on index tuples exactly when the tuple of the largest
      indices packs below 2^64. */
  lemma InjectiveIffLargestFits(counts: seq<nat>)
    requires FitsWord(counts)
    ensures FusesInjectively(counts) <==> Pack(counts, LargestTuple(counts)) < Pow2(WIDTH)
  {
    if Pack(counts, LargestTuple(counts)) < Pow2(WIDTH) {
      forall t, u | IndexTuple(counts, t) && IndexTuple(counts, u) &&
        FuseEnum(counts, Enumerators(t)) == FuseEnum(counts, Enumerators(u))
        ensures t == u
      {
        EqualFusesEqualTuples(counts, t, u);
      }
    } else {
      var t := OverflowingFuseCollides(counts);
    }
  }

  /** The bound that suffices: the reserved widths add up to at most 64. */
  lemma WidthsWithinWordInjective(counts: seq<nat>)
    requires FitsWord(counts)
    requires TotalBits(counts) <= WIDTH
    ensures FusesInjectively(counts)
  {
    PackFitsTotal(counts, LargestTuple(counts));
    Pow2Monotone(TotalBits(counts), WIDTH);
    InjectiveIffLargestFits(counts);
  }

  /** The sum the compile-time assertion of `enum_fuse` bounds by 64. */
  ghost function AssertedBits(counts: seq<nat>): nat
  {
    if counts == [] then 0 else FloorLog2(counts[0] + 1) + AssertedBits(counts[1..])
  }

  ghost function Fives(n: nat): (s: seq<nat>)
    ensures |s| == n && Positive(s)
  {
    seq(n, _ => 5)
  }

  lemma {:induction false} FivesWidths(n: nat)
    ensures AssertedBits(Fives(n)) == 2 * n
    ensures n > 0 ==> Pow2(3 * (n - 1)) * 4 <= Pack(Fives(n), LargestTuple(Fives(n)))
  {
    assert FloorLog2(6) == 1 + FloorLog2(3) == 2;
    assert IndexBits(5) == 1 + FloorLog2(4) == 3;
    if n > 0 {
      var c := Fives(n);
      assert c[1..] == Fives(n - 1);
      FivesWidths(n - 1);
      assert LargestTuple(c)[1..] == LargestTuple(Fives(n - 1));
      if n == 1 {
        assert Pack(c, LargestTuple(c)) == 4;
      } else {
        Pow2Sum(3, 3 * (n - 2));
        assert Pow2(3) == 8;
      }
    }
  }

  /** The assertion accepts 22 enums of five values each, and fusing those collides. */
  lemma AssertionAdmitsCollision()
    ensures AssertedBits(Fives(22)) <= WIDTH
    ensures !FusesInjectively(Fives(22))
  {
    var c := Fives(22);
    FivesWidths(22);
    assert Pow2(2) == 4;
    Pow2Sum(63, 2);
    Pow2Monotone(WIDTH, 65);
    assert IndexBits(5) == 1 + FloorLog2(4) == 3;
    InjectiveIffLargestFits(c);
  }
}
