/** A set of positions below `n` packed into words of `w` bits, the unused high bits of the
    last word being zero. */
module PackedBits {
  import opened BitMath
  import opened Arith

  /** The shape of the packing: the number of positions and the width of a word. */
  datatype Shape = Shape(n: nat) {
    predicate Valid() { n > 0 }

    /** `bits_per_base`. */
    function W(): (w: nat)
      ensures w > 0
    {
      if n <= 8 then 8 else if n <= 16 then 16 else if n <= 32 then 32 else 64
    }

    /** `base_type_count`. */
    function Words(): (c: nat)
      requires Valid()
      ensures c > 0 && (c - 1) * W() < n <= c * W()
    {
      DivModDef(n - 1, W());
      MulDist((n - 1) / W(), 1, W());
      (n - 1) / W() + 1
    }

    /** `not_interested`: the number of spare bits in the last word. */
    function Spare(): (s: nat)
      requires Valid()
      ensures s < W()
    {
      MulDist(Words() - 1, 1, W());
      Words() * W() - n
    }

    /** Number of positions kept in word `j`. */
    function Cap(j: nat): (c: nat)
      requires Valid() && j < Words()
      ensures 0 < c <= W()
    {
      if j + 1 == Words() then W() - Spare() else W()
    }

    /** Well-formed words: nothing at or above the capacity of a word. */
    ghost predicate Fits(ws: seq<nat>) {
      Valid() && |ws| == Words() && forall j :: 0 <= j < |ws| ==> ws[j] < Pow2(Cap(j))
    }

    lemma Within(k: nat)
      requires Valid()
      ensures k / W() < Words() && k % W() < Cap(k / W()) <==> k < n
      ensures k < n ==> k % W() < W()
    {
      DivModDef(k, W());
      var j, c := k / W(), Words();
      if j + 1 < c {
        MulLe(j + 1, c - 1, W());
        MulDist(j, 1, W());
      } else if j >= c {
        MulLe(c, j, W());
      } else {
        MulDist(c - 1, 1, W());
      }
    }

    /** The position kept at bit `b` of word `j`. */
    lemma At(j: nat, b: nat)
      requires Valid() && j < Words() && b < Cap(j)
      ensures (j * W() + b) / W() == j && (j * W() + b) % W() == b
      ensures j * W() + b < n
    {
      DivModUnique(j, W(), b);
      Within(j * W() + b);
    }

    predicate Has(ws: seq<nat>, k: nat)
      requires Valid() && |ws| == Words()
    {
      k < n && (Within(k); Bit(ws[k / W()], k % W()))
    }

    ghost function Members(ws: seq<nat>): set<nat>
      requires Valid() && |ws| == Words()
    {
      set k: nat | 0 <= k < n && Has(ws, k)
    }

    predicate IsPosition(k: nat) { k < n }

    ghost function All(): set<nat> { set k: nat | k < n && IsPosition(k) }

    /** Words with the same members are the same words. */
    lemma SameMembers(ws: seq<nat>, vs: seq<nat>)
      requires Fits(ws) && Fits(vs) && Members(ws) == Members(vs)
      ensures ws == vs
    {
      forall j | 0 <= j < Words() ensures ws[j] == vs[j] {
        forall b: nat ensures Bit(ws[j], b) == Bit(vs[j], b) {
          if b < Cap(j) {
            At(j, b);
            var k := j * W() + b;
            assert k in Members(ws) <==> Has(ws, k);
            assert k in Members(vs) <==> Has(vs, k);
          } else {
            HighBitClear(ws[j], Cap(j), b);
            HighBitClear(vs[j], Cap(j), b);
          }
        }
        SameBits(ws[j], vs[j]);
      }
    }

    /** Combining words bit by bit combines the members. */
    lemma Combine(g: Gate, xs: seq<nat>, ys: seq<nat>, zs: seq<nat>)
      requires Fits(xs) && Fits(ys) && |zs| == Words()
      requires forall j :: 0 <= j < Words() ==> zs[j] == Bitwise(g, xs[j], ys[j])
      ensures Fits(zs)
      ensures forall k :: 0 <= k < n ==> Has(zs, k) == g.On(Has(xs, k), Has(ys, k))
    {
      forall j | 0 <= j < Words() ensures zs[j] < Pow2(Cap(j)) {
        BitwiseFits(g, xs[j], ys[j], Cap(j));
      }
      forall k | 0 <= k < n ensures Has(zs, k) == g.On(Has(xs, k), Has(ys, k)) {
        Within(k);
        BitwiseBit(g, xs[k / W()], ys[k / W()], k % W());
      }
    }

    lemma Complement(xs: seq<nat>, zs: seq<nat>)
      requires Fits(xs) && |zs| == Words()
      requires forall j :: 0 <= j < Words() ==> zs[j] == Not(xs[j], Cap(j))
      ensures Fits(zs)
      ensures forall k :: 0 <= k < n ==> Has(zs, k) == !Has(xs, k)
    {
      forall k | 0 <= k < n ensures Has(zs, k) == !Has(xs, k) {
        Within(k);
        NotBit(xs[k / W()], Cap(k / W()), k % W());
      }
    }

    /** Word `r` is word `j` of `ws` with bit `b` set to `value`. */
    ghost predicate Written(ws: seq<nat>, j: nat, b: nat, value: bool, r: nat)
      requires Valid() && j < |ws| == Words()
    {
      r < Pow2(Cap(j)) && forall i: nat :: i < W() ==> Bit(r, i) == if i == b then value else Bit(ws[j], i)
    }

    lemma WriteBitAt(ws: seq<nat>, k: nat, value: bool, r: nat, i: nat, j: nat)
      requires Valid() && j < |ws| == Words() && k < n && i < n && j == k / W()
      requires Written(ws, j, k % W(), value, r)
      ensures Has(ws[j := r], i) == if i == k then value else Has(ws, i)
    {
      var q, b := i / W(), i % W();
      Within(i);
      SamePlace(i, k, W());
      assert q == j ==> (Bit(r, b) <==> if b == k % W() then value else Bit(ws[j], b));
      assert q != j ==> ws[j := r][q] == ws[q];
    }

    /** Replacing a word by one that differs in one bit changes one member. */
    lemma WriteBit(ws: seq<nat>, k: nat, value: bool, r: nat, j: nat)
      requires Fits(ws) && k < n && j < |ws| && j == k / W()
      requires Written(ws, j, k % W(), value, r)
      ensures Fits(ws[j := r])
      ensures Members(ws[j := r]) == if value then Members(ws) + {k} else Members(ws) - {k}
    {
      forall i: nat | i < n ensures Has(ws[j := r], i) == if i == k then value else Has(ws, i) {
        WriteBitAt(ws, k, value, r, i, j);
      }
    }
  }

  /** The words have no spare bits exactly for these numbers of positions. */
  lemma NoSpareIff(sh: Shape)
    requires sh.Valid()
    ensures sh.Spare() == 0 <==> sh.n == 8 || sh.n == 16 || sh.n == 32 || sh.n % 64 == 0
  {
    var c, w := sh.Words(), sh.W();
    if sh.Spare() == 0 && w == 64 { assert sh.n == c * 64; }
    if sh.n % 64 == 0 { DivModUnique(sh.n / 64 - 1, 64, 63); }
  }

  lemma ZeroWords(sh: Shape, ws: seq<nat>)
    requires sh.Valid() && |ws| == sh.Words()
    requires forall j :: 0 <= j < |ws| ==> ws[j] == 0
    ensures sh.Fits(ws) && sh.Members(ws) == {}
  {
    forall k: nat ensures !Bit(0, k) { BitOfZero(k); }
    forall k: nat | k < sh.n ensures !sh.Has(ws, k) { sh.Within(k); }
  }

  /** Words are full exactly when every position is a member. */
  lemma FullWords(sh: Shape, ws: seq<nat>)
    requires sh.Fits(ws)
    ensures (forall j :: 0 <= j < |ws| ==> ws[j] == Pow2(sh.Cap(j)) - 1) <==> sh.Members(ws) == sh.All()
  {
    var zeros, full := seq(|ws|, _ => 0), seq(|ws|, j requires 0 <= j < |ws| => Not(0, sh.Cap(j)));
    ZeroWords(sh, zeros);
    sh.Complement(zeros, full);
    forall k: nat | k < sh.n ensures sh.Has(full, k) {
      assert k in sh.Members(zeros) <==> sh.Has(zeros, k);
    }
    assert sh.Members(full) == sh.All();
    if sh.Members(ws) == sh.All() { sh.SameMembers(ws, full); }
    if forall j :: 0 <= j < |ws| ==> ws[j] == Pow2(sh.Cap(j)) - 1 { assert ws == full; }
  }

  lemma SamePlace(i: nat, k: nat, w: nat)
    requires w > 0
    ensures i / w == k / w && i % w == k % w ==> i == k
  {
    DivModDef(i, w);
    DivModDef(k, w);
  }

  /** What assigning `value` to bit `b` makes of the word `x`. */
  function WordAfter(x: nat, b: nat, w: nat, value: bool): nat
    requires Pow2(b) < Pow2(w)
  {
    if value then Or(x, Pow2(b)) else And(x, Not(Pow2(b), w))
  }

  /** Setting or clearing bit `b` of a word that holds `c` of its `w` bits. */
  lemma WriteWord(x: nat, b: nat, w: nat, c: nat, value: bool)
    requires b < c <= w && x < Pow2(c)
    ensures Pow2(b) < Pow2(w)
    ensures WordAfter(x, b, w, value) < Pow2(c)
    ensures forall i: nat :: i < w ==> Bit(WordAfter(x, b, w, value), i) == if i == b then value else Bit(x, i)
  {
    var y := Pow2(b);
    Pow2Increasing(b, c);
    Pow2Increasing(b, w);
    Pow2Bits(b);
    if value {
      BitwiseBits(OrGate, x, y);
      BitwiseFits(OrGate, x, y, c);
    } else {
      BitwiseBits(AndGate, x, Not(y, w));
      forall i: nat | i < w ensures Bit(Not(y, w), i) == (i != b) { NotBit(y, w, i); }
      AndFits(x, Not(y, w), c);
    }
  }

  lemma {:induction false} AndFits(x: nat, y: nat, w: nat)
    requires x < Pow2(w)
    ensures And(x, y) < Pow2(w)
  {
    BitwiseBits(AndGate, x, y);
    forall k: nat | w <= k ensures !Bit(And(x, y), k) { HighBitClear(x, w, k); }
    FitsIffHighBitsClear(And(x, y), w);
  }

  /** Masking the complement of a word to `c` bits is the complement within `c` bits. */
  lemma MaskedNot(x: nat, w: nat, c: nat)
    requires c <= w && x < Pow2(c) && x < Pow2(w)
    ensures And(Not(x, w), Pow2(c) - 1) == Not(x, c)
  {
    var m := Pow2(c) - 1;
    BitwiseBits(AndGate, Not(x, w), m);
    forall k: nat ensures Bit(And(Not(x, w), m), k) == Bit(Not(x, c), k) {
      if k < c {
        NotBit(x, w, k);
        NotBit(x, c, k);
        NotBit(0, c, k);
        BitOfZero(k);
      } else {
        HighBitClear(m, c, k);
        HighBitClear(Not(x, c), c, k);
      }
    }
    SameBits(And(Not(x, w), m), Not(x, c));
  }

  // ---------------------------------------------------------------- counting

  function PopCount(x: nat): nat
  {
    if x == 0 then 0 else x % 2 + PopCount(x / 2)
  }

  /** The loop of `popcount`. */
  method PopCountLoop(x: nat) returns (c: nat)
    ensures c == PopCount(x)
  {
    c := 0;
    var v := x;
    while v > 0
      invariant c + PopCount(v) == PopCount(x)
    {
      c, v := c + v % 2, v / 2;
    }
  }

  /** Number of set bits of `x` below bit `b`. */
  ghost function LowCount(x: nat, b: nat): nat
  {
    if b == 0 then 0 else LowCount(x, b - 1) + (if Bit(x, b - 1) then 1 else 0)
  }

  lemma {:induction false} LowCountStep(x: nat, b: nat)
    requires b > 0
    ensures LowCount(x, b) == x % 2 + LowCount(x / 2, b - 1)
  {
    if b > 1 { LowCountStep(x, b - 1); }
  }

  lemma {:induction false} LowCountIsPopCount(x: nat, b: nat)
    requires x < Pow2(b)
    ensures LowCount(x, b) == PopCount(x)
  {
    if b > 0 {
      LowCountStep(x, b);
      LowCountIsPopCount(x / 2, b - 1);
    }
  }

  ghost function SumCounts(ws: seq<nat>): nat
  {
    if ws == [] then 0 else SumCounts(ws[..|ws| - 1]) + PopCount(ws[|ws| - 1])
  }

  /** The members below `m`. */
  ghost function Below(sh: Shape, ws: seq<nat>, m: nat): set<nat>
    requires sh.Valid() && |ws| == sh.Words()
  {
    set k: nat | 0 <= k < m && sh.Has(ws, k)
  }

  lemma BelowStep(sh: Shape, ws: seq<nat>, m: nat)
    requires sh.Valid() && |ws| == sh.Words()
    ensures |Below(sh, ws, m + 1)| == |Below(sh, ws, m)| + (if sh.Has(ws, m) then 1 else 0)
  {
    var step := Below(sh, ws, m) + (if sh.Has(ws, m) then {m} else {});
    assert Below(sh, ws, m + 1) == step;
  }

  /** The members among the first `b` positions of a word are its low bits. */
  lemma {:induction false} BelowInWord(sh: Shape, ws: seq<nat>, j: nat, b: nat, base: nat)
    requires sh.Fits(ws) && j < |ws| && base == j * sh.W() && b <= sh.Cap(j)
    ensures |Below(sh, ws, base + b)| == |Below(sh, ws, base)| + LowCount(ws[j], b)
  {
    if b > 0 {
      BelowInWord(sh, ws, j, b - 1, base);
      sh.At(j, b - 1);
      BelowStep(sh, ws, base + b - 1);
    }
  }

  lemma {:induction false} BelowWords(sh: Shape, ws: seq<nat>, j: nat, base: nat)
    requires sh.Fits(ws) && j < |ws| && base == j * sh.W()
    ensures |Below(sh, ws, base)| == SumCounts(ws[..j])
  {
    if j == 0 {
      assert Below(sh, ws, 0) == {};
    } else {
      var start := base - sh.W();
      MulDist(j - 1, 1, sh.W());
      assert start == (j - 1) * sh.W();
      BelowWords(sh, ws, j - 1, start);
      WordBelow(sh, ws, j - 1, start);
      assert ws[..j][..j - 1] == ws[..j - 1];
    }
  }

  /** The members in a word other than the last are counted by its population count. */
  lemma WordBelow(sh: Shape, ws: seq<nat>, j: nat, base: nat)
    requires sh.Fits(ws) && j + 1 < |ws| && base == j * sh.W()
    ensures |Below(sh, ws, base + sh.W())| == |Below(sh, ws, base)| + PopCount(ws[j])
  {
    BelowInWord(sh, ws, j, sh.W(), base);
    LowCountIsPopCount(ws[j], sh.W());
  }

  /** Adding up the population counts of the words counts the members. */
  lemma CountIsCardinality(sh: Shape, ws: seq<nat>)
    requires sh.Fits(ws)
    ensures SumCounts(ws) == |sh.Members(ws)|
  {
    var last := |ws| - 1;
    var base := last * sh.W();
    BelowWords(sh, ws, last, base);
    BelowInWord(sh, ws, last, sh.Cap(last), base);
    LowCountIsPopCount(ws[last], sh.Cap(last));
    MulDist(last, 1, sh.W());
    assert Below(sh, ws, sh.n) == sh.Members(ws);
  }

  // ---------------------------------------------------------------- encodings

  /** The integer whose bits are the members. */
  ghost predicate Encodes(sh: Shape, ws: seq<nat>, value: nat)
    requires sh.Valid() && |ws| == sh.Words()
  {
    forall k: nat :: Bit(value, k) <==> sh.Has(ws, k)
  }

  /** A packing and its integer determine each other, and the integer is below 2^n. */
  lemma EncodingRoundTrip(sh: Shape, ws: seq<nat>, value: nat, vs: seq<nat>, other: nat)
    requires sh.Fits(ws) && sh.Fits(vs) && Encodes(sh, ws, value) && Encodes(sh, vs, other)
    ensures ws == vs <==> value == other
    ensures value < Pow2(sh.n)
  {
    FitsIffHighBitsClear(value, sh.n);
    if ws == vs { SameBits(value, other); }
    if value == other {
      forall k: nat ensures k in sh.Members(ws) <==> k in sh.Members(vs) {
        assert Bit(value, k) == Bit(other, k);
      }
      sh.SameMembers(ws, vs);
    }
  }
}
