/** Comparing bulks of strings: element by element with `strcmp`, which stops at the first zero
    byte. A string is compared together with the terminator that follows it in the block. */
module StringsOrder {
  import opened StringsImage

  /** The byte at position `k` of a terminated string. */
  function ByteAt(s: Bytes, k: nat): Byte
    requires k <= |s|
  {
    if k < |s| then s[k] else 0
  }

  /** `strcmp` from position `k` on, before which the strings agree and have no zero. */
  function StrcmpFrom(a: Bytes, b: Bytes, k: nat): int
    requires k <= |a| && k <= |b|
    decreases |a| - k
  {
    var x, y := ByteAt(a, k), ByteAt(b, k);
    if x != y then x - y
    else if x == 0 then 0
    else StrcmpFrom(a, b, k + 1)
  }

  function Strcmp(a: Bytes, b: Bytes): int { StrcmpFrom(a, b, 0) }

  /** The part of a string `strcmp` sees from position `k` on. */
  function KeyFrom(s: Bytes, k: nat): Bytes
    requires k <= |s|
    decreases |s| - k
  {
    if ByteAt(s, k) == 0 then [] else [s[k]] + KeyFrom(s, k + 1)
  }

  function Key(s: Bytes): Bytes { KeyFrom(s, 0) }

  lemma {:induction false} StrcmpZeroFrom(a: Bytes, b: Bytes, k: nat)
    requires k <= |a| && k <= |b|
    ensures StrcmpFrom(a, b, k) == 0 <==> KeyFrom(a, k) == KeyFrom(b, k)
    decreases |a| - k
  {
    if ByteAt(a, k) == ByteAt(b, k) != 0 {
      StrcmpZeroFrom(a, b, k + 1);
      assert KeyFrom(a, k)[1..] == KeyFrom(a, k + 1) && KeyFrom(b, k)[1..] == KeyFrom(b, k + 1);
    } else if ByteAt(a, k) != 0 && ByteAt(b, k) != 0 {
      assert KeyFrom(a, k)[0] != KeyFrom(b, k)[0];
    }
  }

  lemma {:induction false} StrcmpAntisymmetricFrom(a: Bytes, b: Bytes, k: nat)
    requires k <= |a| && k <= |b|
    ensures StrcmpFrom(a, b, k) == -StrcmpFrom(b, a, k)
    decreases |a| - k
  {
    if ByteAt(a, k) == ByteAt(b, k) != 0 { StrcmpAntisymmetricFrom(a, b, k + 1); }
  }

  lemma {:induction false} StrcmpTransitiveFrom(a: Bytes, b: Bytes, c: Bytes, k: nat)
    requires k <= |a| && k <= |b| && k <= |c|
    requires StrcmpFrom(a, b, k) <= 0 && StrcmpFrom(b, c, k) <= 0
    ensures StrcmpFrom(a, c, k) <= 0
    ensures StrcmpFrom(a, c, k) == 0 ==> StrcmpFrom(a, b, k) == 0 && StrcmpFrom(b, c, k) == 0
    decreases |a| - k
  {
    if ByteAt(a, k) == ByteAt(b, k) == ByteAt(c, k) != 0 { StrcmpTransitiveFrom(a, b, c, k + 1); }
  }

  /** `strcmp` orders strings by what precedes their first zero byte. */
  lemma StrcmpOrders(a: Bytes, b: Bytes, c: Bytes)
    ensures Strcmp(a, b) == 0 <==> Key(a) == Key(b)
    ensures Strcmp(a, b) == -Strcmp(b, a)
    ensures Strcmp(a, b) < 0 && Strcmp(b, c) < 0 ==> Strcmp(a, c) < 0
    ensures Strcmp(a, b) == 0 ==> (Strcmp(a, c) < 0 <==> Strcmp(b, c) < 0)
  {
    StrcmpZeroFrom(a, b, 0);
    StrcmpAntisymmetricFrom(a, b, 0);
    if Strcmp(a, b) <= 0 && Strcmp(b, c) <= 0 { StrcmpTransitiveFrom(a, b, c, 0); }
    if Strcmp(b, a) <= 0 && Strcmp(a, c) <= 0 { StrcmpTransitiveFrom(b, a, c, 0); }
  }

  // ---------------------------------------------------------------- the order of strings

  /** What `strcmp` sees of a string is what precedes its first zero byte, or all of it. */
  lemma {:induction false} KeyFromExact(s: Bytes, k: nat)
    requires k <= |s|
    ensures var n := |KeyFrom(s, k)|;
            k + n <= |s| && KeyFrom(s, k) == s[k..k + n] && 0 !in KeyFrom(s, k) && ByteAt(s, k + n) == 0
    decreases |s| - k
  {
    if ByteAt(s, k) != 0 { KeyFromExact(s, k + 1); }
  }

  lemma KeyExact(s: Bytes)
    ensures var n := |Key(s)|; n <= |s| && Key(s) == s[..n] && 0 !in Key(s) && (n == |s| || s[n] == 0)
  {
    KeyFromExact(s, 0);
  }

  /** The strings differ at `k`, their terminators included, and nowhere before. */
  ghost predicate DifferAt(a: Bytes, b: Bytes, k: nat)
  {
    && k <= |a| && k <= |b| && ByteAt(a, k) != ByteAt(b, k)
    && forall i :: 0 <= i < k ==> a[i] == b[i] != 0
  }

  /** The sign of `strcmp` is that of the first differing bytes. */
  lemma {:induction false} SignOfDifference(a: Bytes, b: Bytes, k: nat, i: nat)
    requires DifferAt(a, b, k) && i <= k
    ensures StrcmpFrom(a, b, i) < 0 <==> ByteAt(a, k) < ByteAt(b, k)
    ensures StrcmpFrom(a, b, i) > 0 <==> ByteAt(a, k) > ByteAt(b, k)
    decreases k - i
  {
    if i < k { SignOfDifference(a, b, k, i + 1); }
  }

  lemma StrcmpSign(a: Bytes, b: Bytes, k: nat)
    requires DifferAt(a, b, k)
    ensures Strcmp(a, b) < 0 <==> ByteAt(a, k) < ByteAt(b, k)
    ensures Strcmp(a, b) > 0 <==> ByteAt(a, k) > ByteAt(b, k)
  {
    SignOfDifference(a, b, k, 0);
  }

  /** Lexicographic order of strings of bytes. */
  ghost predicate PrecedesAt(x: Bytes, y: Bytes, k: nat)
  {
    && k <= |x| && k <= |y| && x[..k] == y[..k]
    && ((k == |x| && k < |y|) || (k < |x| && k < |y| && x[k] < y[k]))
  }

  ghost predicate Precedes(x: Bytes, y: Bytes)
  {
    exists k: nat :: PrecedesAt(x, y, k)
  }

  lemma {:induction false} FirstDiffering(a: Bytes, b: Bytes, k: nat) returns (d: nat)
    requires k <= |a| && k <= |b| && StrcmpFrom(a, b, k) != 0
    requires forall i :: 0 <= i < k ==> a[i] == b[i] != 0
    ensures DifferAt(a, b, d)
    decreases |a| - k
  {
    if ByteAt(a, k) != ByteAt(b, k) { d := k; } else { d := FirstDiffering(a, b, k + 1); }
  }

  /** Where strings first differ their keys do. */
  lemma DifferenceInKeys(a: Bytes, b: Bytes, k: nat)
    requires DifferAt(a, b, k) && ByteAt(a, k) < ByteAt(b, k)
    ensures PrecedesAt(Key(a), Key(b), k)
  {
    KeyExact(a);
    KeyExact(b);
    assert k <= |Key(a)|;
    assert k < |Key(b)|;
    assert Key(a)[..k] == a[..k] == b[..k] == Key(b)[..k];
  }

  /** `strcmp` is negative exactly when what it sees of the first string precedes what it sees of the
      second one. */
  lemma StrcmpNegativeIff(a: Bytes, b: Bytes)
    ensures Strcmp(a, b) < 0 <==> Precedes(Key(a), Key(b))
  {
    StrcmpOrders(a, b, a);
    if Strcmp(a, b) != 0 {
      var k := FirstDiffering(a, b, 0);
      StrcmpSign(a, b, k);
      if Strcmp(a, b) < 0 {
        DifferenceInKeys(a, b, k);
      } else {
        assert DifferAt(b, a, k);
        DifferenceInKeys(b, a, k);
        NotBothPrecede(Key(b), Key(a), k);
      }
    } else {
      NotItself(Key(a));
    }
  }

  lemma NotItself(x: Bytes)
    ensures !Precedes(x, x)
  {
  }

  lemma NotBothPrecede(x: Bytes, y: Bytes, k: nat)
    requires PrecedesAt(x, y, k)
    ensures !Precedes(y, x)
  {
    forall j: nat | j <= |x| && j <= |y| && y[..j] == x[..j] ensures !PrecedesAt(y, x, j) {
      if j < k { assert x[..k][j] == y[..k][j]; }
      assert forall i :: 0 <= i < j ==> y[i] == y[..j][i] == x[..j][i] == x[i];
    }
  }

  // ---------------------------------------------------------------- in the block

  /** The bytes at `at` are those of the string and its terminator. */
  ghost predicate HoldsAt(m: Bytes, at: nat, s: Bytes)
  {
    at + |s| < |m| && m[at..at + |s|] == s && m[at + |s|] == 0
  }

  /** `strcmp` on the addresses `p` and `q` of two blocks; it stops at the end of a block. */
  function StrcmpIn(m: Bytes, p: nat, n: Bytes, q: nat): int
    decreases |m| - p
  {
    if p >= |m| || q >= |n| then 0
    else if m[p] != n[q] then m[p] - n[q]
    else if m[p] == 0 then 0
    else StrcmpIn(m, p + 1, n, q + 1)
  }

  lemma {:induction false} StoredCompareFrom(m: Bytes, p: nat, a: Bytes, n: Bytes, q: nat, b: Bytes, k: nat)
    requires HoldsAt(m, p, a) && HoldsAt(n, q, b) && k <= |a| && k <= |b|
    ensures StrcmpIn(m, p + k, n, q + k) == StrcmpFrom(a, b, k)
    decreases |a| - k
  {
    assert k < |a| ==> m[p + k] == m[p..p + |a|][k];
    assert k < |b| ==> n[q + k] == n[q..q + |b|][k];
    if ByteAt(a, k) == ByteAt(b, k) != 0 { StoredCompareFrom(m, p, a, n, q, b, k + 1); }
  }

  /** Comparing two strings where the accessor finds them in their blocks is comparing the strings. */
  lemma StoredCompare(a: seq<Bytes>, i: nat, b: seq<Bytes>, j: nat)
    requires i < |a| && Size(a) < U64 && Offset(a, |a| - 1) < U32
    requires j < |b| && Size(b) < U64 && Offset(b, |b| - 1) < U32
    ensures HasEntry(Image(a), i) && HasEntry(Image(b), j)
    ensures StrcmpIn(Image(a), OffsetAt(Image(a), i), Image(b), OffsetAt(Image(b), j)) == Strcmp(a[i], b[j])
  {
    StringReads(a, i);
    StringReads(b, j);
    StoredCompareFrom(Image(a), OffsetAt(Image(a), i), a[i], Image(b), OffsetAt(Image(b), j), b[j], 0);
  }

  // ---------------------------------------------------------------- bulks

  function Keys(s: seq<Bytes>): (k: seq<Bytes>)
    ensures |k| == |s| && forall i :: 0 <= i < |s| ==> k[i] == Key(s[i])
  {
    seq(|s|, i requires 0 <= i < |s| => Key(s[i]))
  }

  /** `lexicographical_strcmp_compare` from string `i` on. */
  predicate LessFrom(a: seq<Bytes>, b: seq<Bytes>, i: nat)
    requires i <= |a| && i <= |b|
    decreases |b| - i
  {
    if i == |b| then false
    else if i == |a| then true
    else Strcmp(a[i], b[i]) < 0 || (Strcmp(a[i], b[i]) == 0 && LessFrom(a, b, i + 1))
  }

  /** `operator<`. */
  predicate Less(a: seq<Bytes>, b: seq<Bytes>) { LessFrom(a, b, 0) }

  method CompareLess(a: seq<Bytes>, b: seq<Bytes>) returns (r: bool)
    ensures r == Less(a, b)
    ensures r <==> exists i: nat :: LessAt(a, b, i)
  {
    LessIff(a, b);
    var first := 0;
    while first != |b|
      invariant first <= |a| && first <= |b|
      invariant LessFrom(a, b, first) == Less(a, b)
      decreases |b| - first
    {
      if first == |a| { return true; }
      var cmp := Strcmp(a[first], b[first]);
      if cmp < 0 { return true; }
      if cmp > 0 { return false; }
      first := first + 1;
    }
    return false;
  }

  /** `operator==`: two bulks are equal exactly when `strcmp` sees the same strings in both. */
  method CompareEqual(a: seq<Bytes>, b: seq<Bytes>) returns (r: bool)
    ensures r <==> Keys(a) == Keys(b)
  {
    if |a| != |b| { return false; }
    for i := 0 to |a|
      invariant Keys(a)[..i] == Keys(b)[..i]
    {
      StrcmpZeroFrom(a[i], b[i], 0);
      if Strcmp(a[i], b[i]) != 0 {
        assert Keys(a)[i] != Keys(b)[i];
        return false;
      }
    }
    assert Keys(a)[..|a|] == Keys(a) && Keys(b)[..|b|] == Keys(b);
    return true;
  }

  /** The keys agree below `i`. */
  ghost predicate Agree(a: seq<Bytes>, b: seq<Bytes>, i: nat)
  {
    i <= |a| && i <= |b| && forall k :: 0 <= k < i ==> Key(a[k]) == Key(b[k])
  }

  lemma {:induction false} IncomparableFrom(a: seq<Bytes>, b: seq<Bytes>, i: nat)
    requires Agree(a, b, i)
    ensures LessFrom(a, b, i) ==> !LessFrom(b, a, i)
    ensures !LessFrom(a, b, i) && !LessFrom(b, a, i) <==> Keys(a) == Keys(b)
    decreases |b| - i
  {
    if i < |a| && i < |b| {
      StrcmpOrders(a[i], b[i], a[i]);
      if Strcmp(a[i], b[i]) == 0 {
        IncomparableFrom(a, b, i + 1);
      } else {
        assert Keys(a)[i] != Keys(b)[i];
      }
    } else if |a| == |b| {
      assert forall k :: 0 <= k < |a| ==> Keys(a)[k] == Keys(b)[k];
    }
  }

  /** The lists agree below `i`, and there the first one ends or its string precedes the other. */
  ghost predicate LessAt(a: seq<Bytes>, b: seq<Bytes>, i: nat)
  {
    && Agree(a, b, i)
    && ((i == |a| && i < |b|) || (i < |a| && i < |b| && Precedes(Key(a[i]), Key(b[i]))))
  }

  lemma {:induction false} LessFromIff(a: seq<Bytes>, b: seq<Bytes>, i: nat)
    requires Agree(a, b, i)
    ensures LessFrom(a, b, i) <==> exists j: nat :: i <= j && LessAt(a, b, j)
    decreases |b| - i
  {
    if i < |a| && i < |b| {
      StrcmpNegativeIff(a[i], b[i]);
      StrcmpOrders(a[i], b[i], a[i]);
      if Strcmp(a[i], b[i]) == 0 {
        LessFromIff(a, b, i + 1);
        NotItself(Key(a[i]));
        if j: nat :| i <= j && LessAt(a, b, j) { assert j != i; }
      } else {
        if LessFrom(a, b, i) { assert LessAt(a, b, i); }
        if j: nat :| i <= j && LessAt(a, b, j) { assert j == i; }
      }
    } else if i < |b| {
      assert LessAt(a, b, i);
    }
  }

  /** `<` is the lexicographic order of the lists by what `strcmp` sees of their strings. */
  lemma LessIff(a: seq<Bytes>, b: seq<Bytes>)
    ensures Less(a, b) <==> exists i: nat :: LessAt(a, b, i)
  {
    LessFromIff(a, b, 0);
    if i: nat :| LessAt(a, b, i) { assert 0 <= i; }
  }

  /** Exactly one of less, equal and greater holds. */
  lemma LessTrichotomy(a: seq<Bytes>, b: seq<Bytes>)
    ensures Less(a, b) ==> !Less(b, a)
    ensures !Less(a, b) && !Less(b, a) <==> Keys(a) == Keys(b)
  {
    IncomparableFrom(a, b, 0);
  }

  lemma {:induction false} LessTransitiveFrom(a: seq<Bytes>, b: seq<Bytes>, c: seq<Bytes>, i: nat)
    requires i <= |a| && i <= |b| && i <= |c| && LessFrom(a, b, i) && LessFrom(b, c, i)
    ensures LessFrom(a, c, i)
    decreases |b| - i
  {
    if i < |a| {
      StrcmpOrders(a[i], b[i], c[i]);
      StrcmpOrders(b[i], c[i], a[i]);
      StrcmpOrders(a[i], c[i], b[i]);
      if Strcmp(a[i], b[i]) == 0 && Strcmp(b[i], c[i]) == 0 { LessTransitiveFrom(a, b, c, i + 1); }
    }
  }

  lemma LessTransitive(a: seq<Bytes>, b: seq<Bytes>, c: seq<Bytes>)
    requires Less(a, b) && Less(b, c)
    ensures Less(a, c)
  {
    LessTransitiveFrom(a, b, c, 0);
  }

  /** Incomparability is an equivalence, so that `<` is a strict weak order. */
  lemma IncomparableTransitive(a: seq<Bytes>, b: seq<Bytes>, c: seq<Bytes>)
    requires !Less(a, b) && !Less(b, a) && !Less(b, c) && !Less(c, b)
    ensures !Less(a, c) && !Less(c, a)
  {
    LessTrichotomy(a, b);
    LessTrichotomy(b, c);
    LessTrichotomy(a, c);
  }

  lemma {:induction false} KeyOfPlain(s: Bytes, k: nat)
    requires k <= |s| && 0 !in s
    ensures KeyFrom(s, k) == s[k..]
    decreases |s| - k
  {
    if k < |s| { KeyOfPlain(s, k + 1); }
  }

  /** Without embedded zeros equality of bulks is equality of the lists of strings. */
  lemma PlainEquality(a: seq<Bytes>, b: seq<Bytes>)
    requires forall i :: 0 <= i < |a| ==> 0 !in a[i]
    requires forall i :: 0 <= i < |b| ==> 0 !in b[i]
    ensures Keys(a) == Keys(b) <==> a == b
  {
    forall i | 0 <= i < |a| ensures Keys(a)[i] == a[i] { KeyOfPlain(a[i], 0); }
    forall i | 0 <= i < |b| ensures Keys(b)[i] == b[i] { KeyOfPlain(b[i], 0); }
    assert Keys(a) == a && Keys(b) == b;
  }
}
