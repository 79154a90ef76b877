/** Printing a union of flags as a separated list of names, and parsing such lists. */
module Flags {
  import opened Wrappers
  import opened BitMath
  import opened Sequences

  /** The declared flags in order of value: the bit each one occupies, and its name. */
  datatype FlagTable = FlagTable(bits: seq<nat>, names: seq<string>) {
    ghost predicate Valid() {
      |bits| == |names| && Increasing(bits)
    }

    function Count(): nat { |bits| }

    function Value(i: nat): nat requires i < |bits| { Pow2(bits[i]) }
  }

  type CharPredicate = (char, char) -> bool

  // ---------------------------------------------------------------- bits

  /** A single flag meets a value exactly when its bit is set. */
  lemma AndFlag(value: nat, b: nat)
    ensures And(value, Pow2(b)) != 0 <==> Bit(value, b)
  {
    var a := And(value, Pow2(b));
    BitwiseBits(AndGate, value, Pow2(b));
    Pow2Bits(b);
    if Bit(value, b) {
      BitOfZero(b);
    } else {
      forall k: nat ensures Bit(a, k) == Bit(0, k) { BitOfZero(k); }
      SameBits(a, 0);
    }
  }

  lemma OrFlag(value: nat, b: nat)
    ensures forall k: nat :: Bit(Or(value, Pow2(b)), k) <==> Bit(value, k) || k == b
  {
    BitwiseBits(OrGate, value, Pow2(b));
    Pow2Bits(b);
  }

  /** The union of the flags of `value` among the first `n` declared ones. */
  function DeclaredPart(t: FlagTable, value: nat, n: nat): nat
    requires n <= t.Count()
  {
    if n == 0 then 0
    else
      var rest := DeclaredPart(t, value, n - 1);
      if And(value, t.Value(n - 1)) != 0 then Or(rest, t.Value(n - 1)) else rest
  }

  lemma {:induction false} DeclaredPartBits(t: FlagTable, value: nat, n: nat)
    requires n <= t.Count()
    ensures forall k: nat :: Bit(DeclaredPart(t, value, n), k) <==> Bit(value, k) && k in t.bits[..n]
  {
    if n == 0 {
      forall k: nat ensures !Bit(0, k) { BitOfZero(k); }
    } else {
      DeclaredPartBits(t, value, n - 1);
      AndFlag(value, t.bits[n - 1]);
      OrFlag(DeclaredPart(t, value, n - 1), t.bits[n - 1]);
      assert t.bits[..n] == t.bits[..n - 1] + [t.bits[n - 1]];
    }
  }

  /** `value` is a non-empty union of declared flags. */
  ghost predicate Union(t: FlagTable, value: nat)
  {
    value != 0 && forall k: nat :: Bit(value, k) ==> k in t.bits
  }

  lemma DeclaredPartIsWhole(t: FlagTable, value: nat)
    ensures Union(t, value) <==> DeclaredPart(t, value, t.Count()) == value != 0
  {
    var part := DeclaredPart(t, value, t.Count());
    DeclaredPartBits(t, value, t.Count());
    assert t.bits[..t.Count()] == t.bits;
    if Union(t, value) { SameBits(part, value); }
  }

  // ---------------------------------------------------------------- printing

  /** The loop of `enum_flags_name` over the first `n` flags: the text so far, or `None` when a
      set flag has no name. */
  function NameUpTo(t: FlagTable, value: nat, sep: char, n: nat): Option<string>
    requires t.Valid() && n <= t.Count()
  {
    if n == 0 then Some("")
    else
      match NameUpTo(t, value, sep, n - 1)
      case None => None
      case Some(name) =>
        if And(value, t.Value(n - 1)) == 0 then Some(name)
        else if t.names[n - 1] == "" then None
        else Some(name + (if name == "" then "" else [sep]) + t.names[n - 1])
  }

  /** The text `enum_flags_name` returns; empty when the value is not a union of named flags. */
  function Printed(t: FlagTable, value: nat, sep: char): string
    requires t.Valid()
  {
    match NameUpTo(t, value, sep, t.Count())
    case None => ""
    case Some(name) =>
      if DeclaredPart(t, value, t.Count()) == value != 0 then name else ""
  }

  lemma {:induction false} NameUpToNone(t: FlagTable, value: nat, sep: char, n: nat, m: nat)
    requires t.Valid() && n <= m <= t.Count()
    requires NameUpTo(t, value, sep, n) == None
    ensures NameUpTo(t, value, sep, m) == None
    decreases m
  {
    if n < m { NameUpToNone(t, value, sep, n, m - 1); }
  }

  method EnumFlagsName(t: FlagTable, value: nat, sep: char) returns (text: string)
    requires t.Valid()
    ensures text == Printed(t, value, sep)
    ensures text != "" <==>
            (Union(t, value) && forall i :: 0 <= i < t.Count() && Bit(value, t.bits[i]) ==> t.names[i] != "")
    ensures text != "" ==>
              exists ps: seq<nat>, at: seq<nat> :: FlagsOf(t, value, ps, t.Count()) && Spelled(t, text, sep, ps, at)
  {
    PrintedExact(t, value, sep);
    var name := "";
    var checkValue := 0;
    for i := 0 to t.Count()
      invariant NameUpTo(t, value, sep, i) == Some(name)
      invariant checkValue == DeclaredPart(t, value, i)
    {
      var v := t.Value(i);
      if And(value, v) != 0 {
        var n := t.names[i];
        if n != "" {
          checkValue := Or(checkValue, v);
          if name != "" { name := name + [sep]; }
          assert name == "" ==> name + "" + n == name + n;
          name := name + n;
        } else {
          NameUpToNone(t, value, sep, i + 1, t.Count());
          return "";
        }
      }
    }
    return if checkValue != 0 && checkValue == value then name else "";
  }

  /** The flags at the positions `ps` are those of the value, in the order in which they are declared. */
  ghost predicate FlagsOf(t: FlagTable, value: nat, ps: seq<nat>, n: nat)
    requires n <= t.Count()
  {
    && Increasing(ps) && (forall i :: 0 <= i < |ps| ==> ps[i] < n)
    && (forall i: nat :: i in ps <==> i < n && Bit(value, t.bits[i]))
  }

  /** The text consists of the names at the positions `ps`, each starting where `at` says, with one
      separator between neighbours. */
  ghost predicate Spelled(t: FlagTable, text: string, sep: char, ps: seq<nat>, at: seq<nat>)
    requires t.Valid()
  {
    && |at| == |ps| && (forall i :: 0 <= i < |ps| ==> NameAt(t, text, ps[i], at[i]))
    && (ps == [] ==> text == "")
    && (ps != [] ==> at[0] == 0 && NameEnd(t, ps[|ps| - 1], at[|ps| - 1]) == |text|)
    && (forall i :: 0 < i < |ps| ==> at[i] == NameEnd(t, ps[i - 1], at[i - 1]) + 1 && text[at[i] - 1] == sep)
  }

  function NameEnd(t: FlagTable, f: nat, at: nat): nat
  {
    if f < |t.names| then at + |t.names[f]| else at
  }

  ghost predicate NameAt(t: FlagTable, text: string, f: nat, at: nat)
    requires t.Valid()
  {
    f < t.Count() && at + |t.names[f]| <= |text| && text[at..at + |t.names[f]|] == t.names[f]
  }

  ghost predicate InTable(t: FlagTable, ps: seq<nat>)
  {
    forall i :: 0 <= i < |ps| ==> ps[i] < |t.bits|
  }

  /** The flags of the value among the first `n`, in the order of declaration. */
  ghost function SetFlags(t: FlagTable, value: nat, n: nat): (ps: seq<nat>)
    requires n <= t.Count()
    ensures InTable(t, ps)
  {
    if n == 0 then [] else SetFlags(t, value, n - 1) + (if Bit(value, t.bits[n - 1]) then [n - 1] else [])
  }

  lemma {:induction false} SetFlagsExact(t: FlagTable, value: nat, n: nat)
    requires n <= t.Count()
    ensures FlagsOf(t, value, SetFlags(t, value, n), n)
  {
    if n > 0 { SetFlagsExact(t, value, n - 1); }
  }

  /** The names at the positions `ps` with a separator between neighbours. */
  ghost function Joined(t: FlagTable, ps: seq<nat>, sep: char): string
    requires t.Valid() && InTable(t, ps)
  {
    if ps == [] then ""
    else if |ps| == 1 then t.names[ps[0]]
    else Joined(t, ps[..|ps| - 1], sep) + [sep] + t.names[ps[|ps| - 1]]
  }

  lemma NameStays(t: FlagTable, text: string, more: string, f: nat, at: nat)
    requires t.Valid() && NameAt(t, text, f, at)
    ensures NameAt(t, text + more, f, at)
  {
    assert (text + more)[at..at + |t.names[f]|] == text[at..at + |t.names[f]|];
  }

  lemma SpellFirst(t: FlagTable, sep: char, f: nat)
    requires t.Valid() && f < t.Count()
    ensures Spelled(t, t.names[f], sep, [f], [0])
  {
  }

  lemma NamesStay(t: FlagTable, text: string, sep: char, ps: seq<nat>, at: seq<nat>, more: string)
    requires t.Valid() && Spelled(t, text, sep, ps, at)
    ensures forall i :: 0 <= i < |ps| ==> NameAt(t, text + more, ps[i], at[i])
  {
    forall i | 0 <= i < |ps| ensures NameAt(t, text + more, ps[i], at[i]) {
      NameStays(t, text, more, ps[i], at[i]);
    }
  }

  /** Appending a name after a separator. */
  lemma SpellMore(t: FlagTable, text: string, sep: char, ps: seq<nat>, at: seq<nat>, f: nat)
    requires t.Valid() && Spelled(t, text, sep, ps, at) && f < t.Count() && ps != []
    ensures Spelled(t, text + [sep] + t.names[f], sep, ps + [f], at + [|text| + 1])
  {
    var more, qs, bt := text + [sep] + t.names[f], ps + [f], at + [|text| + 1];
    assert more == text + ([sep] + t.names[f]);
    NamesStay(t, text, sep, ps, at, [sep] + t.names[f]);
    assert NameAt(t, more, f, |text| + 1);
    forall i | 0 < i < |qs| ensures bt[i] == NameEnd(t, qs[i - 1], bt[i - 1]) + 1 && more[bt[i] - 1] == sep {
      if i < |ps| { assert NameAt(t, text, ps[i], at[i]); }
    }
  }

  lemma {:induction false} JoinedSpelled(t: FlagTable, ps: seq<nat>, sep: char) returns (at: seq<nat>)
    requires t.Valid() && InTable(t, ps)
    ensures Spelled(t, Joined(t, ps, sep), sep, ps, at)
    decreases |ps|
  {
    if ps == [] {
      at := [];
    } else if |ps| == 1 {
      SpellFirst(t, sep, ps[0]);
      assert ps == [ps[0]];
      at := [0];
    } else {
      var front, last := ps[..|ps| - 1], ps[|ps| - 1];
      var starts := JoinedSpelled(t, front, sep);
      assert ps == front + [last];
      SpellMore(t, Joined(t, front, sep), sep, front, starts, last);
      JoinedMore(t, front, sep, last);
      at := starts + [|Joined(t, front, sep)| + 1];
    }
  }

  lemma JoinedMore(t: FlagTable, ps: seq<nat>, sep: char, f: nat)
    requires t.Valid() && InTable(t, ps) && f < t.Count() && ps != []
    ensures Joined(t, ps + [f], sep) == Joined(t, ps, sep) + [sep] + t.names[f]
  {
    assert (ps + [f])[..|ps|] == ps;
  }

  lemma NameNext(t: FlagTable, value: nat, sep: char, n: nat)
    requires t.Valid() && 0 < n <= t.Count() && NameUpTo(t, value, sep, n).Some?
    ensures NameUpTo(t, value, sep, n - 1).Some?
    ensures var text, more := NameUpTo(t, value, sep, n - 1).value, NameUpTo(t, value, sep, n).value;
            if Bit(value, t.bits[n - 1])
            then t.names[n - 1] != "" && more == (if text == "" then t.names[n - 1] else text + [sep] + t.names[n - 1])
            else more == text
  {
    AndFlag(value, t.bits[n - 1]);
    assert "" + "" + t.names[n - 1] == t.names[n - 1];
  }

  /** What has been printed are the names of the flags passed so far. */
  lemma {:induction false} PrefixJoined(t: FlagTable, value: nat, sep: char, n: nat)
    requires t.Valid() && n <= t.Count() && NameUpTo(t, value, sep, n).Some?
    ensures NameUpTo(t, value, sep, n).value == Joined(t, SetFlags(t, value, n), sep)
    ensures NameUpTo(t, value, sep, n).value == "" <==> SetFlags(t, value, n) == []
  {
    if n > 0 {
      NameNext(t, value, sep, n);
      PrefixJoined(t, value, sep, n - 1);
      var ps := SetFlags(t, value, n - 1);
      if Bit(value, t.bits[n - 1]) {
        if ps == [] { JoinedOne(t, sep, n - 1); } else { JoinedMore(t, ps, sep, n - 1); }
        assert ps == [] ==> ps + [n - 1] == [n - 1];
      } else {
        assert SetFlags(t, value, n) == ps;
      }
    }
  }

  lemma JoinedOne(t: FlagTable, sep: char, f: nat)
    requires t.Valid() && f < t.Count()
    ensures Joined(t, [f], sep) == t.names[f]
  {
  }

  lemma {:induction false} NamesPresent(t: FlagTable, value: nat, sep: char, n: nat)
    requires t.Valid() && n <= t.Count()
    ensures NameUpTo(t, value, sep, n).Some? <==> forall i :: 0 <= i < n && Bit(value, t.bits[i]) ==> t.names[i] != ""
  {
    if n > 0 {
      NamesPresent(t, value, sep, n - 1);
      AndFlag(value, t.bits[n - 1]);
    }
  }

  lemma PrintedText(t: FlagTable, value: nat, sep: char) returns (ps: seq<nat>, at: seq<nat>)
    requires t.Valid() && Printed(t, value, sep) != ""
    ensures FlagsOf(t, value, ps, t.Count()) && Spelled(t, Printed(t, value, sep), sep, ps, at)
  {
    ps := SetFlags(t, value, t.Count());
    PrefixJoined(t, value, sep, t.Count());
    SetFlagsExact(t, value, t.Count());
    at := JoinedSpelled(t, ps, sep);
  }

  lemma UnionHasText(t: FlagTable, value: nat, sep: char)
    requires t.Valid() && Union(t, value) && NameUpTo(t, value, sep, t.Count()).Some?
    ensures NameUpTo(t, value, sep, t.Count()).value != ""
  {
    var b := SomeBit(value);
    var i :| 0 <= i < t.Count() && t.bits[i] == b;
    PrefixJoined(t, value, sep, t.Count());
    SetFlagsExact(t, value, t.Count());
    assert i in SetFlags(t, value, t.Count());
  }

  /** A value has a text exactly when it is a non-empty union of declared flags that all have names, and
      the text spells these names in the order of declaration. */
  lemma PrintedExact(t: FlagTable, value: nat, sep: char)
    requires t.Valid()
    ensures Printed(t, value, sep) != "" <==>
            (Union(t, value) && forall i :: 0 <= i < t.Count() && Bit(value, t.bits[i]) ==> t.names[i] != "")
    ensures Printed(t, value, sep) != "" ==>
              exists ps: seq<nat>, at: seq<nat> ::
                FlagsOf(t, value, ps, t.Count()) && Spelled(t, Printed(t, value, sep), sep, ps, at)
  {
    NamesPresent(t, value, sep, t.Count());
    DeclaredPartIsWhole(t, value);
    if Union(t, value) && NameUpTo(t, value, sep, t.Count()).Some? { UnionHasText(t, value, sep); }
    if Printed(t, value, sep) != "" {
      var ps, at := PrintedText(t, value, sep);
    }
  }

  // ---------------------------------------------------------------- parsing

  /** Position of the first `c`, or the length when there is none (`npos`). */
  function Find(s: string, c: char): (d: nat)
    ensures d <= |s| && c !in s[..d] && (d < |s| ==> s[d] == c)
  {
    if s == "" then 0
    else if s[0] == c then 0
    else
      var d := Find(s[1..], c);
      assert s[..d + 1] == [s[0]] + s[1..][..d];
      d + 1
  }

  /** `cmp_equal`: same length, and the predicate accepts every pair of characters. */
  predicate CmpEqual(a: string, b: string, p: CharPredicate)
  {
    |a| == |b| && forall i :: 0 <= i < |a| ==> p(a[i], b[i])
  }

  /** The first flag whose name matches. */
  function Lookup(t: FlagTable, s: string, p: CharPredicate, from: nat): (r: Option<nat>)
    requires t.Valid() && from <= t.Count()
    ensures r.Some? ==> from <= r.value < t.Count() && CmpEqual(s, t.names[r.value], p)
    ensures r.Some? ==> forall j :: from <= j < r.value ==> !CmpEqual(s, t.names[j], p)
    ensures r.None? ==> forall j :: from <= j < t.Count() ==> !CmpEqual(s, t.names[j], p)
    decreases t.Count() - from
  {
    if from == t.Count() then None
    else if CmpEqual(s, t.names[from], p) then Some(from)
    else Lookup(t, s, p, from + 1)
  }

  /** What remains after the segment of length `d` and its separator. */
  function After(s: string, d: nat): (rest: string)
    requires d <= |s|
    ensures s != "" ==> |rest| < |s|
  {
    if d < |s| then s[d + 1..] else ""
  }

  /** The union of the flags named by the segments of `s`, or `None` if one is unknown. */
  function Segments(t: FlagTable, s: string, sep: char, p: CharPredicate): Option<nat>
    requires t.Valid()
    decreases |s|
  {
    if s == "" then Some(0)
    else
      var d := Find(s, sep);
      match Lookup(t, s[..d], p, 0)
      case None => None
      case Some(i) =>
        match Segments(t, After(s, d), sep, p)
        case None => None
        case Some(rest) => Some(Or(t.Value(i), rest))
  }

  function Parsed(t: FlagTable, s: string, sep: char, p: CharPredicate): Option<nat>
    requires t.Valid()
  {
    match Segments(t, s, sep, p)
    case None => None
    case Some(v) => if v != 0 then Some(v) else None
  }

  lemma OrAssociative(x: nat, y: nat, z: nat)
    ensures Or(Or(x, y), z) == Or(x, Or(y, z))
  {
    BitwiseBits(OrGate, x, y);
    BitwiseBits(OrGate, y, z);
    BitwiseBits(OrGate, Or(x, y), z);
    BitwiseBits(OrGate, x, Or(y, z));
    SameBits(Or(Or(x, y), z), Or(x, Or(y, z)));
  }

  lemma OrUnit(x: nat)
    ensures Or(0, x) == x && Or(x, 0) == x
  {
    OrZero(x);
    BitwiseBits(OrGate, 0, x);
    forall k: nat ensures Bit(Or(0, x), k) == Bit(x, k) { BitOfZero(k); }
    SameBits(Or(0, x), x);
  }

  /** `enum_flags_cast` from a string. */
  method EnumFlagsParse(t: FlagTable, text: string, sep: char, p: CharPredicate) returns (r: Option<nat>)
    requires t.Valid()
    ensures r == Parsed(t, text, sep, p)
    ensures r.Some? <==> text != "" && AllDeclared(t, text, sep, p)
    ensures r.Some? ==> forall k: nat :: Bit(r.value, k) <==> Named(t, text, sep, p, k)
  {
    ParsedExact(t, text, sep, p);
    if t.Count() == 0 { return None; }
    var result := 0;
    var value := text;
    ghost var whole := Segments(t, text, sep, p);
    if whole.Some? { OrUnit(whole.value); }
    while value != ""
      invariant match Segments(t, value, sep, p)
                case None => whole == None
                case Some(rest) => whole == Some(Or(result, rest))
      decreases |value|
    {
      var d := Find(value, sep);
      var s := value[..d];
      var f := 0;
      var i := 0;
      while i < t.Count()
        invariant 0 <= i <= t.Count() && f == 0
        invariant Lookup(t, s, p, 0) == Lookup(t, s, p, i)
      {
        if CmpEqual(s, t.names[i], p) {
          f := t.Value(i);
          break;
        }
        i := i + 1;
      }
      if f == 0 { return None; }
      ghost var tail := Segments(t, After(value, d), sep, p);
      if tail.Some? { OrAssociative(result, f, tail.value); }
      result := Or(result, f);
      value := After(value, d);
    }
    OrUnit(result);
    return if result != 0 then Some(result) else None;
  }

  // ---------------------------------------------------------------- what parses

  /** `text[i..j]` is one of the pieces the separators cut the text into; after a final separator there
      is none. */
  ghost predicate IsSegment(text: string, sep: char, i: nat, j: nat)
  {
    && i <= j <= |text| && i < |text| && (forall k :: i <= k < j ==> text[k] != sep)
    && (i == 0 || text[i - 1] == sep) && (j == |text| || text[j] == sep)
  }

  /** Flag `f` is the first declared one whose name matches. */
  ghost predicate FirstMatch(t: FlagTable, s: string, p: CharPredicate, f: nat)
    requires t.Valid()
  {
    f < t.Count() && CmpEqual(s, t.names[f], p) && forall g :: 0 <= g < f ==> !CmpEqual(s, t.names[g], p)
  }

  ghost predicate Declared(t: FlagTable, s: string, p: CharPredicate)
    requires t.Valid()
  {
    exists f: nat :: FirstMatch(t, s, p, f)
  }

  ghost predicate AllDeclared(t: FlagTable, text: string, sep: char, p: CharPredicate)
    requires t.Valid()
  {
    forall i: nat, j: nat :: IsSegment(text, sep, i, j) ==> Declared(t, text[i..j], p)
  }

  /** The flag the name stands for has bit `k`. */
  ghost predicate Names(t: FlagTable, s: string, p: CharPredicate, k: nat)
    requires t.Valid()
  {
    exists f: nat :: FirstMatch(t, s, p, f) && t.bits[f] == k
  }

  /** Bit `k` is that of a flag some segment names. */
  ghost predicate Named(t: FlagTable, text: string, sep: char, p: CharPredicate, k: nat)
    requires t.Valid()
  {
    exists i: nat, j: nat :: IsSegment(text, sep, i, j) && Names(t, text[i..j], p, k)
  }

  lemma LookupFirst(t: FlagTable, s: string, p: CharPredicate)
    requires t.Valid()
    ensures Lookup(t, s, p, 0).Some? <==> Declared(t, s, p)
    ensures forall f: nat :: FirstMatch(t, s, p, f) <==> Lookup(t, s, p, 0) == Some(f)
  {
    var r := Lookup(t, s, p, 0);
    if r.Some? { assert FirstMatch(t, s, p, r.value); }
  }

  /** `text` is cut at its first separator, at `d` or nowhere; `rest` is what remains. */
  ghost predicate Cut(text: string, sep: char, d: nat, rest: string)
  {
    && text != "" && d <= |text| && (forall k :: 0 <= k < d ==> text[k] != sep)
    && (d < |text| ==> text[d] == sep && rest == text[d + 1..]) && (d == |text| ==> rest == "")
  }

  lemma FindCuts(text: string, sep: char)
    requires text != ""
    ensures Cut(text, sep, Find(text, sep), After(text, Find(text, sep)))
  {
    var d := Find(text, sep);
    forall k | 0 <= k < d ensures text[k] != sep { assert text[..d][k] == text[k]; }
  }

  lemma FirstSegmentEnds(text: string, sep: char, d: nat, rest: string, i: nat, j: nat)
    requires Cut(text, sep, d, rest)
    ensures IsSegment(text, sep, 0, j) <==> j == d
    ensures IsSegment(text, sep, i, j) && i != 0 ==> d < i
  {
  }

  /** The segments of what remains are segments. */
  lemma SegmentShifts(text: string, sep: char, d: nat, rest: string, i: nat, j: nat, i': nat, j': nat)
    requires Cut(text, sep, d, rest) && d < |text| && i == i' + d + 1 && j == j' + d + 1
    ensures IsSegment(text, sep, i, j) <==> IsSegment(rest, sep, i', j')
  {
    if IsSegment(text, sep, i, j) {
      forall k | i' <= k < j' ensures rest[k] != sep { assert text[k + d + 1] != sep; }
    }
    if IsSegment(rest, sep, i', j') {
      forall k | i <= k < j ensures text[k] != sep { assert rest[k - d - 1] != sep; }
    }
  }

  lemma SliceShifts(text: string, rest: string, d: nat, i: nat, j: nat, i': nat, j': nat)
    requires d < |text| && rest == text[d + 1..] && i == i' + d + 1 && j == j' + d + 1 && i <= j <= |text|
    ensures text[i..j] == rest[i'..j']
  {
  }

  /** A segment is the first one, or one of what remains. */
  lemma SegmentCases(text: string, sep: char, d: nat, rest: string, i: nat, j: nat) returns (i': nat, j': nat)
    requires Cut(text, sep, d, rest) && IsSegment(text, sep, i, j)
    ensures if i == 0 then j == d && text[i..j] == text[..d]
            else IsSegment(rest, sep, i', j') && text[i..j] == rest[i'..j']
  {
    FirstSegmentEnds(text, sep, d, rest, i, j);
    if i == 0 {
      i', j' := 0, 0;
    } else {
      i', j' := i - d - 1, j - d - 1;
      SegmentShifts(text, sep, d, rest, i, j, i', j');
      SliceShifts(text, rest, d, i, j, i', j');
    }
  }

  /** A segment of what remains is one of the text. */
  lemma SegmentAfter(text: string, sep: char, d: nat, rest: string, i': nat, j': nat) returns (i: nat, j: nat)
    requires Cut(text, sep, d, rest) && IsSegment(rest, sep, i', j')
    ensures IsSegment(text, sep, i, j) && text[i..j] == rest[i'..j']
  {
    i, j := i' + d + 1, j' + d + 1;
    SegmentShifts(text, sep, d, rest, i, j, i', j');
    SliceShifts(text, rest, d, i, j, i', j');
  }

  lemma DeclaredFront(t: FlagTable, text: string, sep: char, p: CharPredicate, d: nat, rest: string)
    requires t.Valid() && Cut(text, sep, d, rest) && AllDeclared(t, text, sep, p)
    ensures Declared(t, text[..d], p) && AllDeclared(t, rest, sep, p)
  {
    FirstSegmentEnds(text, sep, d, rest, 0, d);
    assert text[0..d] == text[..d];
    forall i': nat, j': nat | IsSegment(rest, sep, i', j') ensures Declared(t, rest[i'..j'], p) {
      var i, j := SegmentAfter(text, sep, d, rest, i', j');
    }
  }

  lemma DeclaredBack(t: FlagTable, text: string, sep: char, p: CharPredicate, d: nat, rest: string)
    requires t.Valid() && Cut(text, sep, d, rest) && Declared(t, text[..d], p) && AllDeclared(t, rest, sep, p)
    ensures AllDeclared(t, text, sep, p)
  {
    forall i: nat, j: nat | IsSegment(text, sep, i, j) ensures Declared(t, text[i..j], p) {
      var i', j' := SegmentCases(text, sep, d, rest, i, j);
    }
  }

  lemma NamedFront(t: FlagTable, text: string, sep: char, p: CharPredicate, d: nat, rest: string, k: nat)
    requires t.Valid() && Cut(text, sep, d, rest) && (Names(t, text[..d], p, k) || Named(t, rest, sep, p, k))
    ensures Named(t, text, sep, p, k)
  {
    FirstSegmentEnds(text, sep, d, rest, 0, d);
    assert text[0..d] == text[..d];
    if i': nat, j': nat :| IsSegment(rest, sep, i', j') && Names(t, rest[i'..j'], p, k) {
      var i, j := SegmentAfter(text, sep, d, rest, i', j');
    }
  }

  lemma NamedBack(t: FlagTable, text: string, sep: char, p: CharPredicate, d: nat, rest: string, k: nat)
    requires t.Valid() && Cut(text, sep, d, rest) && Named(t, text, sep, p, k)
    ensures Names(t, text[..d], p, k) || Named(t, rest, sep, p, k)
  {
    var i: nat, j: nat :| IsSegment(text, sep, i, j) && Names(t, text[i..j], p, k);
    var i', j' := SegmentCases(text, sep, d, rest, i, j);
  }

  lemma NamesFirst(t: FlagTable, s: string, p: CharPredicate, k: nat)
    requires t.Valid() && Lookup(t, s, p, 0).Some?
    ensures Names(t, s, p, k) <==> t.bits[Lookup(t, s, p, 0).value] == k
  {
    LookupFirst(t, s, p);
    assert FirstMatch(t, s, p, Lookup(t, s, p, 0).value);
  }

  lemma {:induction false} SegmentsDeclare(t: FlagTable, text: string, sep: char, p: CharPredicate)
    requires t.Valid()
    ensures Segments(t, text, sep, p).Some? <==> AllDeclared(t, text, sep, p)
    decreases |text|
  {
    if text != "" {
      var d := Find(text, sep);
      var rest := After(text, d);
      FindCuts(text, sep);
      LookupFirst(t, text[..d], p);
      SegmentsDeclare(t, rest, sep, p);
      if AllDeclared(t, text, sep, p) { DeclaredFront(t, text, sep, p, d, rest); }
      if Segments(t, text, sep, p).Some? { DeclaredBack(t, text, sep, p, d, rest); }
    }
  }

  lemma {:induction false} SegmentsName(t: FlagTable, text: string, sep: char, p: CharPredicate, k: nat)
    requires t.Valid() && Segments(t, text, sep, p).Some?
    ensures Bit(Segments(t, text, sep, p).value, k) <==> Named(t, text, sep, p, k)
    decreases |text|
  {
    if text == "" {
      BitOfZero(k);
    } else {
      var d := Find(text, sep);
      var f, rest := Lookup(t, text[..d], p, 0).value, Segments(t, After(text, d), sep, p).value;
      FindCuts(text, sep);
      SegmentsName(t, After(text, d), sep, p, k);
      NamesFirst(t, text[..d], p, k);
      BitwiseBits(OrGate, t.Value(f), rest);
      Pow2Bits(t.bits[f]);
      assert Bit(Or(t.Value(f), rest), k) <==> t.bits[f] == k || Bit(rest, k);
      if Named(t, text, sep, p, k) { NamedBack(t, text, sep, p, d, After(text, d), k); }
      if t.bits[f] == k || Bit(rest, k) { NamedFront(t, text, sep, p, d, After(text, d), k); }
    }
  }

  /** A text parses exactly when it is not empty and each of its segments names a declared flag, and then
      to the flags that are named. */
  lemma ParsedExact(t: FlagTable, text: string, sep: char, p: CharPredicate)
    requires t.Valid()
    ensures Parsed(t, text, sep, p).Some? <==> text != "" && AllDeclared(t, text, sep, p)
    ensures Parsed(t, text, sep, p).Some? ==>
              forall k: nat :: Bit(Parsed(t, text, sep, p).value, k) <==> Named(t, text, sep, p, k)
  {
    var all := Segments(t, text, sep, p);
    SegmentsDeclare(t, text, sep, p);
    if all.Some? {
      forall k: nat ensures Bit(all.value, k) <==> Named(t, text, sep, p, k) { SegmentsName(t, text, sep, p, k); }
      if text != "" {
        var d := Find(text, sep);
        var f := Lookup(t, text[..d], p, 0).value;
        FindCuts(text, sep);
        NamesFirst(t, text[..d], p, t.bits[f]);
        NamedFront(t, text, sep, p, d, After(text, d), t.bits[f]);
        BitOfZero(t.bits[f]);
      }
    }
  }

  // ---------------------------------------------------------------- round trips

  /** Names a list can be split back into: not empty, free of the separator, and told apart by
      a reflexive predicate. */
  ghost predicate Separable(t: FlagTable, sep: char, p: CharPredicate)
  {
    && t.Valid()
    && (forall c :: p(c, c))
    && (forall i :: 0 <= i < t.Count() ==> t.names[i] != "" && sep !in t.names[i])
    && (forall i, j :: 0 <= i < j < t.Count() ==> !CmpEqual(t.names[j], t.names[i], p))
  }

  lemma LookupName(t: FlagTable, sep: char, p: CharPredicate, i: nat)
    requires Separable(t, sep, p) && i < t.Count()
    ensures Lookup(t, t.names[i], p, 0) == Some(i)
  {
    assert CmpEqual(t.names[i], t.names[i], p);
  }

  lemma FindIn(s: string, rest: string, c: char)
    requires c !in s
    ensures rest == "" || rest[0] == c ==> Find(s + rest, c) == |s|
  {
    var d := Find(s + rest, c);
    assert forall k :: 0 <= k < |s| ==> (s + rest)[k] == s[k];
    if d > |s| { assert (s + rest)[..d][|s|] == rest[0]; }
  }

  lemma NameParses(t: FlagTable, sep: char, p: CharPredicate, i: nat)
    requires Separable(t, sep, p) && i < t.Count()
    ensures Segments(t, t.names[i], sep, p) == Some(t.Value(i))
  {
    FindIn(t.names[i], "", sep);
    assert t.names[i] + "" == t.names[i] == t.names[i][..|t.names[i]|];
    LookupName(t, sep, p, i);
    OrUnit(t.Value(i));
  }

  lemma FirstFound(s: string, u: string, sep: char)
    ensures var d, all := Find(s, sep), s + [sep] + u; Find(all, sep) == d && all[..d] == s[..d]
  {
    var d, all := Find(s, sep), s + [sep] + u;
    JoinSplits(s, u, sep, d);
    FindIn(s[..d], s[d..] + [sep] + u, sep);
    assert all[..d] == s[..d];
  }

  /** What remains after the first segment of two joined lists. */
  lemma Remains(s: string, u: string, sep: char, d: nat)
    requires d <= |s|
    ensures After(s + [sep] + u, d) == if d == |s| then u else After(s, d) + [sep] + u
  {
    var all := s + [sep] + u;
    if d < |s| {
      assert all[d + 1..] == s[d + 1..] + [sep] + u;
    } else {
      assert all[d + 1..] == u;
    }
  }

  /** The first segment of two joined lists is that of the first one. */
  lemma FirstSegment(s: string, u: string, sep: char)
    requires s != "" && s[|s| - 1] != sep
    ensures var d, all := Find(s, sep), s + [sep] + u;
            && Find(all, sep) == d && all[..d] == s[..d]
            && After(all, d) == (if d == |s| then u else After(s, d) + [sep] + u)
            && (d < |s| ==> After(s, d) != "" && After(s, d)[|After(s, d)| - 1] != sep)
  {
    FirstFound(s, u, sep);
    Remains(s, u, sep, Find(s, sep));
    LastRemains(s, sep, Find(s, sep));
  }

  lemma LastRemains(s: string, sep: char, d: nat)
    requires s != "" && s[|s| - 1] != sep && (d < |s| ==> s[d] == sep)
    ensures d < |s| ==> After(s, d) != "" && After(s, d)[|After(s, d)| - 1] != sep
  {
  }

  lemma JoinSplits(s: string, u: string, sep: char, d: nat)
    requires d <= |s|
    ensures s + [sep] + u == s[..d] + (s[d..] + [sep] + u)
  {
    assert s == s[..d] + s[d..];
  }

  /** Joining two lists with a separator unites what they parse to. */
  lemma {:induction false} JoinParses(t: FlagTable, s: string, u: string, sep: char, p: CharPredicate)
    requires t.Valid() && s != "" && s[|s| - 1] != sep
    requires Segments(t, s, sep, p).Some? && Segments(t, u, sep, p).Some?
    ensures Segments(t, s + [sep] + u, sep, p) ==
            Some(Or(Segments(t, s, sep, p).value, Segments(t, u, sep, p).value))
    decreases |s|
  {
    FirstSegment(s, u, sep);
    var d := Find(s, sep);
    var i, rest := Lookup(t, s[..d], p, 0).value, After(s, d);
    if d == |s| {
      OrUnit(t.Value(i));
    } else {
      JoinParses(t, rest, u, sep, p);
      OrAssociative(t.Value(i), Segments(t, rest, sep, p).value, Segments(t, u, sep, p).value);
    }
  }

  /** The printed prefix parses to the flags printed so far. */
  lemma {:induction false} PrefixParses(t: FlagTable, value: nat, sep: char, p: CharPredicate, n: nat)
    requires Separable(t, sep, p) && n <= t.Count()
    ensures NameUpTo(t, value, sep, n).Some?
    ensures var text := NameUpTo(t, value, sep, n).value;
            && Segments(t, text, sep, p) == Some(DeclaredPart(t, value, n))
            && (text != "" ==> text[|text| - 1] != sep)
  {
    if n > 0 {
      PrefixParses(t, value, sep, p, n - 1);
      var before, name := NameUpTo(t, value, sep, n - 1).value, t.names[n - 1];
      NameParses(t, sep, p, n - 1);
      if And(value, t.Value(n - 1)) != 0 {
        if before == "" {
          assert before + "" + name == name;
          OrUnit(t.Value(n - 1));
        } else {
          JoinParses(t, before, name, sep, p);
        }
      }
    }
  }

  /** Printing succeeds exactly on the non-empty unions of declared flags, and parsing what was
      printed gives the union back. */
  lemma PrintThenParse(t: FlagTable, value: nat, sep: char, p: CharPredicate)
    requires Separable(t, sep, p)
    ensures Printed(t, value, sep) != "" <==> Union(t, value)
    ensures Union(t, value) ==> Parsed(t, Printed(t, value, sep), sep, p) == Some(value)
  {
    PrefixParses(t, value, sep, p, t.Count());
    DeclaredPartIsWhole(t, value);
  }

  lemma {:induction false} SegmentsDeclared(t: FlagTable, s: string, sep: char, p: CharPredicate)
    requires t.Valid() && Segments(t, s, sep, p).Some?
    ensures forall k: nat :: Bit(Segments(t, s, sep, p).value, k) ==> k in t.bits
    decreases |s|
  {
    if s == "" {
      forall k: nat ensures !Bit(0, k) { BitOfZero(k); }
    } else {
      var d := Find(s, sep);
      var i, rest := Lookup(t, s[..d], p, 0).value, Segments(t, After(s, d), sep, p).value;
      SegmentsDeclared(t, After(s, d), sep, p);
      BitwiseBits(OrGate, t.Value(i), rest);
      Pow2Bits(t.bits[i]);
    }
  }

  /** Whatever parses has a canonical printed form, which parses to the same value. */
  lemma ParseThenPrint(t: FlagTable, s: string, sep: char, p: CharPredicate)
    requires Separable(t, sep, p) && Parsed(t, s, sep, p).Some?
    ensures var value := Parsed(t, s, sep, p).value;
            && Union(t, value)
            && Printed(t, value, sep) != ""
            && Parsed(t, Printed(t, value, sep), sep, p) == Some(value)
  {
    SegmentsDeclared(t, s, sep, p);
    PrintThenParse(t, Parsed(t, s, sep, p).value, sep, p);
  }

  // ---------------------------------------------------------------- casting integers

  ghost predicate Contiguous(t: FlagTable)
  {
    forall i :: 0 <= i < t.Count() ==> t.bits[i] == t.bits[0] + i
  }

  /** The union of the first `n` declared flags. */
  function OrsUpTo(t: FlagTable, n: nat): nat
    requires n <= t.Count()
  {
    if n == 0 then 0 else Or(OrsUpTo(t, n - 1), t.Value(n - 1))
  }

  lemma {:induction false} OrsBits(t: FlagTable, n: nat)
    requires n <= t.Count()
    ensures forall k: nat :: Bit(OrsUpTo(t, n), k) <==> k in t.bits[..n]
  {
    if n == 0 {
      forall k: nat ensures !Bit(0, k) { BitOfZero(k); }
    } else {
      OrsBits(t, n - 1);
      OrFlag(OrsUpTo(t, n - 1), t.bits[n - 1]);
      assert t.bits[..n] == t.bits[..n - 1] + [t.bits[n - 1]];
    }
  }

  /** The loop of `values_ors`: the bits of the result are exactly those of the declared flags. */
  method ValuesOrs(t: FlagTable) returns (ors: nat)
    ensures ors == OrsUpTo(t, t.Count())
    ensures forall k: nat :: Bit(ors, k) <==> k in t.bits
  {
    ors := 0;
    for i := 0 to t.Count()
      invariant ors == OrsUpTo(t, i)
    {
      ors := Or(ors, t.Value(i));
    }
    OrsBits(t, t.Count());
    assert t.bits[..t.Count()] == t.bits;
  }

  /** Whether there are gaps between the declared flags (`is_sparse`). */
  predicate Sparse(t: FlagTable)
  {
    t.Count() > 0 && Gapped(t.bits[0], t.bits[t.Count() - 1], t.Count())
  }

  /** The range test used when the flags have no gaps. */
  ghost predicate InRange(t: FlagTable, value: nat)
    requires t.Count() > 0
  {
    t.Value(0) <= value <= OrsUpTo(t, t.Count())
  }

  /** `enum_flags_cast` from an integer: a per-flag test, or a range test when there are no gaps. */
  method EnumFlagsCast(t: FlagTable, value: nat) returns (r: Option<nat>)
    requires t.Valid()
    ensures r.Some? ==> r.value == value
    ensures r.Some? <==> t.Count() > 0 && if Sparse(t) then Union(t, value) else InRange(t, value)
  {
    if t.Count() == 0 { return None; }
    if Sparse(t) {
      var checkValue := 0;
      for i := 0 to t.Count()
        invariant checkValue == DeclaredPart(t, value, i)
      {
        if And(value, t.Value(i)) != 0 { checkValue := Or(checkValue, t.Value(i)); }
      }
      DeclaredPartIsWhole(t, value);
      if checkValue != 0 && checkValue == value { return Some(value); }
    } else {
      var min := t.Value(0);
      var max := ValuesOrs(t);
      if min <= value && value <= max { return Some(value); }
    }
    return None;
  }

  /** The per-flag test is used exactly when the declared flags leave gaps. */
  lemma SparseIff(t: FlagTable)
    requires t.Valid()
    ensures Sparse(t) <==> !Contiguous(t)
  {
    if t.Count() > 0 { GappedIff(t.bits); }
  }

  lemma {:induction false} ContiguousOrs(t: FlagTable, n: nat)
    requires Contiguous(t) && 0 < t.Count() && n <= t.Count()
    ensures OrsUpTo(t, n) == Pow2(t.bits[0] + n) - Pow2(t.bits[0])
  {
    if n > 0 {
      ContiguousOrs(t, n - 1);
      BitwiseCommutes(OrGate, OrsUpTo(t, n - 1), t.Value(n - 1));
      OrShifted(1, t.bits[n - 1], OrsUpTo(t, n - 1));
    }
  }

  /** With the lowest flag at bit 0 the range test accepts exactly the unions. */
  lemma RangeFromBitZero(t: FlagTable, value: nat)
    requires t.Valid() && Contiguous(t) && t.Count() > 0 && t.bits[0] == 0
    ensures InRange(t, value) <==> Union(t, value)
  {
    var n := t.Count();
    ContiguousOrs(t, n);
    assert InRange(t, value) <==> value != 0 && value < Pow2(n);
    FitsIffHighBitsClear(value, n);
    forall k: nat ensures k in t.bits <==> k < n {
      if k < n { assert t.bits[k] == k; }
    }
    if Union(t, value) {
      forall k: nat | n <= k ensures !Bit(value, k) {}
    }
  }

  lemma RangeOfSingleFlag(t: FlagTable, value: nat)
    requires t.Count() == 1
    ensures InRange(t, value) <==> Union(t, value)
  {
    var b := t.bits[0];
    ContiguousOrs(t, 1);
    Pow2Bits(b);
    if Union(t, value) {
      if !Bit(value, b) {
        forall k: nat ensures Bit(value, k) == Bit(0, k) { BitOfZero(k); }
        SameBits(value, 0);
      }
      SameBits(value, Pow2(b));
    }
  }

  /** With the lowest flag above bit 0 and more than one flag, the number above the lowest flag is in the
      range and no union. */
  lemma RangeTestFails(t: FlagTable)
    requires t.Valid() && Contiguous(t) && t.Count() > 1 && t.bits[0] > 0
    ensures InRange(t, Pow2(t.bits[0]) + 1) && !Union(t, Pow2(t.bits[0]) + 1)
  {
    var a, n := t.bits[0], t.Count();
    ContiguousOrs(t, n);
    Pow2Monotone(a + 2, a + n);
    assert Pow2(a + 2) == 4 * Pow2(a) && Pow2(a) == 2 * Pow2(a - 1);
    assert Bit(Pow2(a) + 1, 0) && 0 !in t.bits;
  }

  /** For flags without gaps the range test is the union test on every value exactly when the
      lowest flag is bit 0 or there is only one flag. */
  lemma RangeTestExactIff(t: FlagTable)
    requires t.Valid() && !Sparse(t) && t.Count() > 0
    ensures (forall value: nat :: InRange(t, value) <==> Union(t, value)) <==> t.bits[0] == 0 || t.Count() == 1
  {
    SparseIff(t);
    if t.bits[0] == 0 || t.Count() == 1 {
      forall value: nat ensures InRange(t, value) <==> Union(t, value) {
        if t.Count() == 1 { RangeOfSingleFlag(t, value); } else { RangeFromBitZero(t, value); }
      }
    } else {
      RangeTestFails(t);
    }
  }
}
