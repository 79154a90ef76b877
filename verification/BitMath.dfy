/** Unsigned machine words as natural numbers. A word of width `w` is a natural
    number below `Pow2(w)`; bit `k` of it is `Bit(x, k)`. The bitwise operators of
    the source are defined digit by digit and characterised by their bits. */
module BitMath {
  function Pow2(n: nat): (p: nat)
    ensures p > 0
  {
    if n == 0 then 1 else 2 * Pow2(n - 1)
  }

  predicate Bit(x: nat, k: nat)
  {
    if k == 0 then x % 2 == 1 else Bit(x / 2, k - 1)
  }

  datatype Gate = AndGate | OrGate | XorGate {
    predicate On(a: bool, b: bool) {
      match this
      case AndGate => a && b
      case OrGate => a || b
      case XorGate => a != b
    }
  }

  function Bitwise(g: Gate, x: nat, y: nat): nat
    decreases x + y
  {
    if x == 0 && y == 0 then 0
    else 2 * Bitwise(g, x / 2, y / 2) + (if g.On(x % 2 == 1, y % 2 == 1) then 1 else 0)
  }

  function And(x: nat, y: nat): nat { Bitwise(AndGate, x, y) }

  function Or(x: nat, y: nat): nat { Bitwise(OrGate, x, y) }

  /** The complement of `x` in a word of `w` bits. */
  function Not(x: nat, w: nat): nat
    requires x < Pow2(w)
  {
    Pow2(w) - 1 - x
  }

  lemma {:induction false} BitOfZero(k: nat)
    ensures !Bit(0, k)
  {
    if k > 0 { BitOfZero(k - 1); }
  }

  /** A number other than zero has a bit. */
  lemma {:induction false} SomeBit(x: nat) returns (k: nat)
    requires x != 0
    ensures Bit(x, k)
  {
    if x % 2 == 1 {
      k := 0;
    } else {
      var half := SomeBit(x / 2);
      k := half + 1;
    }
  }

  lemma {:induction false} BitwiseBit(g: Gate, x: nat, y: nat, k: nat)
    ensures Bit(Bitwise(g, x, y), k) == g.On(Bit(x, k), Bit(y, k))
    decreases k
  {
    if x == 0 && y == 0 {
      BitOfZero(k);
    } else {
      var half := Bitwise(g, x / 2, y / 2);
      assert Bitwise(g, x, y) / 2 == half;
      if k > 0 { BitwiseBit(g, x / 2, y / 2, k - 1); }
    }
  }

  lemma BitwiseBits(g: Gate, x: nat, y: nat)
    ensures forall k: nat :: Bit(Bitwise(g, x, y), k) == g.On(Bit(x, k), Bit(y, k))
  {
    forall k: nat ensures Bit(Bitwise(g, x, y), k) == g.On(Bit(x, k), Bit(y, k)) {
      BitwiseBit(g, x, y, k);
    }
  }

  /** Two numbers with the same bits are the same number. */
  lemma {:induction false} SameBits(x: nat, y: nat)
    requires forall k: nat :: Bit(x, k) == Bit(y, k)
    ensures x == y
    decreases x + y
  {
    assert Bit(x, 0) == Bit(y, 0);
    if x != 0 || y != 0 {
      forall k: nat ensures Bit(x / 2, k) == Bit(y / 2, k) {
        assert Bit(x, k + 1) == Bit(y, k + 1);
      }
      SameBits(x / 2, y / 2);
    }
  }

  lemma {:induction false} HighBitClear(x: nat, w: nat, k: nat)
    requires x < Pow2(w) && w <= k
    ensures !Bit(x, k)
  {
    if w == 0 {
      BitOfZero(k);
    } else {
      HighBitClear(x / 2, w - 1, k - 1);
    }
  }

  ghost predicate HighBitsClear(x: nat, w: nat)
  {
    forall k: nat :: w <= k ==> !Bit(x, k)
  }

  /** A number fits in `w` bits exactly when it has no bit at or above `w`. */
  lemma {:induction false} FitsIffHighBitsClear(x: nat, w: nat)
    ensures x < Pow2(w) <==> HighBitsClear(x, w)
  {
    if x < Pow2(w) {
      forall k: nat | w <= k ensures !Bit(x, k) { HighBitClear(x, w, k); }
    }
    if HighBitsClear(x, w) { HighBitsClearFits(x, w); }
  }

  lemma {:induction false} HighBitsClearFits(x: nat, w: nat)
    requires HighBitsClear(x, w)
    ensures x < Pow2(w)
    decreases w
  {
    if w == 0 {
      forall k: nat ensures Bit(x, k) == Bit(0, k) { BitOfZero(k); }
      SameBits(x, 0);
    } else {
      forall k: nat | w - 1 <= k ensures !Bit(x / 2, k) {
        assert !Bit(x, k + 1);
      }
      HighBitsClearFits(x / 2, w - 1);
    }
  }

  lemma {:induction false} BitwiseFits(g: Gate, x: nat, y: nat, w: nat)
    requires x < Pow2(w) && y < Pow2(w)
    ensures Bitwise(g, x, y) < Pow2(w)
  {
    if w > 0 && (x != 0 || y != 0) { BitwiseFits(g, x / 2, y / 2, w - 1); }
  }

  lemma {:induction false} NotBit(x: nat, w: nat, k: nat)
    requires x < Pow2(w) && k < w
    ensures Bit(Not(x, w), k) == !Bit(x, k)
  {
    var y := Not(x, w);
    assert y / 2 == Not(x / 2, w - 1);
    if k > 0 { NotBit(x / 2, w - 1, k - 1); }
  }

  lemma {:induction false} Pow2Bit(n: nat, k: nat)
    ensures Bit(Pow2(n), k) == (n == k)
  {
    if n == 0 {
      if k > 0 { BitOfZero(k - 1); }
    } else if k > 0 {
      Pow2Bit(n - 1, k - 1);
    }
  }

  lemma Pow2Bits(n: nat)
    ensures forall k: nat :: Bit(Pow2(n), k) == (n == k)
  {
    forall k: nat ensures Bit(Pow2(n), k) == (n == k) { Pow2Bit(n, k); }
  }

  lemma {:induction false} Pow2Increasing(a: nat, b: nat)
    requires a < b
    ensures Pow2(a) < Pow2(b)
    decreases b
  {
    if a + 1 < b { Pow2Increasing(a, b - 1); }
  }

  lemma BitwiseCommutes(g: Gate, x: nat, y: nat)
    ensures Bitwise(g, x, y) == Bitwise(g, y, x)
  {
    BitwiseBits(g, x, y);
    BitwiseBits(g, y, x);
    SameBits(Bitwise(g, x, y), Bitwise(g, y, x));
  }

  lemma {:induction false} Pow2Monotone(a: nat, b: nat)
    requires a <= b
    ensures Pow2(a) <= Pow2(b)
    decreases b
  {
    if a < b { Pow2Monotone(a, b - 1); }
  }

  lemma {:induction false} Pow2Sum(a: nat, b: nat)
    ensures Pow2(a + b) == Pow2(a) * Pow2(b)
  {
    if a > 0 { Pow2Sum(a - 1, b); }
  }

  /** Shifting left by `k` and or-ing in a number below `Pow2(k)` is addition. */
  lemma {:induction false} OrShifted(x: nat, k: nat, low: nat)
    requires low < Pow2(k)
    ensures Or(x * Pow2(k), low) == x * Pow2(k) + low
  {
    var s := x * Pow2(k);
    if k == 0 {
      OrZero(s);
    } else {
      var h := x * Pow2(k - 1);
      assert s == 2 * h;
      OrShifted(x, k - 1, low / 2);
    }
  }

  lemma {:induction false} OrZero(x: nat)
    ensures Or(x, 0) == x
  {
    if x != 0 { OrZero(x / 2); }
  }
}
