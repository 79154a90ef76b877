/** `set`: an ordered set of enumerators over a bitset, with a separately kept size. The order
    of the index is the order of the comparator, so positions are compared in its place. */
module EnumSets {
  import opened Wrappers
  import opened Sequences
  import opened Indexing
  import opened Bitsets

  // ---------------------------------------------------------------- iteration

  /** The first member at or after `from`, or `n` (what incrementing a filtered iterator finds). */
  ghost function NextMember(members: set<nat>, from: nat, n: nat): (k: nat)
    requires from <= n
    ensures from <= k <= n && (k < n ==> k in members)
    ensures forall i :: from <= i < k ==> i !in members
    decreases n - from
  {
    if from == n || from in members then from else NextMember(members, from + 1, n)
  }

  /** The members from `from` on, in increasing order of position. */
  ghost function InOrder(members: set<nat>, from: nat, n: nat): seq<nat>
    requires from <= n
    decreases n - from
  {
    if from == n then [] else (if from in members then [from] else []) + InOrder(members, from + 1, n)
  }

  lemma {:induction false} InOrderSkips(members: set<nat>, from: nat, n: nat)
    requires from <= n
    ensures var k := NextMember(members, from, n);
            InOrder(members, from, n) == if k < n then [k] + InOrder(members, k + 1, n) else []
    decreases n - from
  {
    if from < n && from !in members { InOrderSkips(members, from + 1, n); }
  }

  /** The listing in order holds exactly the members, each once, in increasing order. */
  lemma {:induction false} InOrderExact(members: set<nat>, from: nat, n: nat)
    requires from <= n
    ensures forall k :: k in InOrder(members, from, n) <==> from <= k < n && k in members
    ensures Increasing(InOrder(members, from, n))
    decreases n - from
  {
    if from < n {
      InOrderExact(members, from + 1, n);
      var rest, all := InOrder(members, from + 1, n), InOrder(members, from, n);
      forall i, j | 0 <= i < j < |all| ensures all[i] < all[j] {
        if from in members {
          assert all[j] == rest[j - 1] && rest[j - 1] in rest;
          assert i > 0 ==> all[i] == rest[i - 1];
        }
      }
    }
  }

  // ---------------------------------------------------------------- order

  /** The first position at which the two sets differ, or `n`. */
  ghost function FirstDifference(x: set<nat>, y: set<nat>, from: nat, n: nat): (k: nat)
    requires from <= n
    ensures from <= k <= n && (k < n ==> (k in x) != (k in y))
    ensures forall i :: from <= i < k ==> (i in x) == (i in y)
    decreases n - from
  {
    if from == n || (from in x) != (from in y) then from else FirstDifference(x, y, from + 1, n)
  }

  /** `operator<`: by size, then by who holds the first element in which the sets differ. */
  ghost predicate SetLess(x: set<nat>, y: set<nat>, n: nat)
  {
    |x| < |y| || (|x| == |y| && var k := FirstDifference(x, y, 0, n); k < n && k in y)
  }

  ghost predicate Bounded(x: set<nat>, n: nat)
  {
    forall k :: k in x ==> k < n
  }

  /** `k` is the first element in which the sets differ, and `y` holds it. */
  ghost predicate FirstMissing(x: set<nat>, y: set<nat>, k: nat)
  {
    k in y && k !in x && forall i: nat :: i < k ==> (i in x <==> i in y)
  }

  /** The smaller set is less; of sets of one size that which lacks the first element in which they differ. */
  lemma LessIff(x: set<nat>, y: set<nat>, n: nat)
    requires Bounded(x, n) && Bounded(y, n)
    ensures |x| < |y| ==> SetLess(x, y, n)
    ensures |y| < |x| ==> !SetLess(x, y, n)
    ensures |x| == |y| ==> (SetLess(x, y, n) <==> exists k: nat :: FirstMissing(x, y, k))
  {
    var d := FirstDifference(x, y, 0, n);
    if k: nat :| FirstMissing(x, y, k) {
      assert d == k;
    }
    if d < n && d in y { assert FirstMissing(x, y, d); }
  }

  /** Exactly one of less, equal and greater holds. */
  lemma LessTrichotomy(x: set<nat>, y: set<nat>, n: nat)
    requires Bounded(x, n) && Bounded(y, n)
    ensures SetLess(x, y, n) ==> x != y && !SetLess(y, x, n)
    ensures x != y ==> SetLess(x, y, n) || SetLess(y, x, n)
  {
    var k, l := FirstDifference(x, y, 0, n), FirstDifference(y, x, 0, n);
    assert k == l;
    if k == n {
      forall i: nat ensures i in x <==> i in y {}
      assert x == y;
    }
  }

  lemma LessTransitive(x: set<nat>, y: set<nat>, z: set<nat>, n: nat)
    requires Bounded(x, n) && Bounded(y, n) && Bounded(z, n)
    requires SetLess(x, y, n) && SetLess(y, z, n)
    ensures SetLess(x, z, n)
  {
    if |x| == |z| {
      var k, l, m := FirstDifference(x, y, 0, n), FirstDifference(y, z, 0, n), FirstDifference(x, z, 0, n);
      var first := if k < l then k else l;
      assert k != l;
      assert (first in x) != (first in z) && first in z;
      assert m == first;
    }
  }

  // ---------------------------------------------------------------- the container

  class EnumSet {
    const a: Bitset
    var s: nat

    ghost predicate Valid()
      reads this, a, a.a
    {
      a.Valid() && s == |a.Members()|
    }

    ghost function Members(): set<nat>
      requires Valid()
      reads this, a, a.a
    {
      a.Members()
    }

    ghost function N(): nat { |a.order| }

    constructor (order: seq<int>)
      requires order != []
      ensures Valid() && fresh(a) && fresh(a.a) && a.order == order && Members() == {}
    {
      a := new Bitset(order);
      s := 0;
    }

    method Clear()
      requires Valid()
      modifies this, a.a
      ensures Valid() && Members() == {}
    {
      a.Reset();
      s := 0;
    }

    /** Inserting a value that is no enumerator changes nothing and returns the end. */
    method Insert(value: int) returns (it: nat, inserted: bool)
      requires Valid()
      modifies this, a.a
      ensures Valid()
      ensures match Position(a.order, value)
              case None => it == N() && !inserted && Members() == old(Members())
              case Some(k) => it == k && inserted == (k !in old(Members())) && Members() == old(Members()) + {k}
    {
      match Position(a.order, value)
      case Some(k) =>
        var r := !a.Get(k);
        if r {
          a.Put(k, true);
          s := s + 1;
        }
        return k, r;
      case None =>
        return |a.order|, false;
    }

    /** Erasing an enumerator; how many elements were erased. */
    method Erase(key: int) returns (erased: nat)
      requires Valid() && key in a.order
      modifies this, a.a
      ensures Valid()
      ensures var k := Position(a.order, key).value;
              Members() == old(Members()) - {k} && erased == if k in old(Members()) then 1 else 0
    {
      var k := Position(a.order, key).value;
      var res := a.Get(k);
      if res { s := s - 1; }
      a.Put(k, false);
      return if res then 1 else 0;
    }

    method Contains(key: int) returns (r: bool)
      requires Valid()
      ensures r <==> exists k :: k in Members() && Position(a.order, key) == Some(k)
    {
      match Position(a.order, key)
      case Some(k) => return a.Get(k);
      case None => return false;
    }

    /** Incrementing a filtered iterator. */
    method Next(current: nat) returns (next: nat)
      requires Valid() && current < N()
      ensures next == NextMember(Members(), current + 1, N())
    {
      next := current + 1;
      while next != |a.order| && !a.Get(next)
        invariant current < next <= |a.order|
        invariant NextMember(Members(), next, N()) == NextMember(Members(), current + 1, N())
        decreases |a.order| - next
      {
        next := next + 1;
      }
    }

    method Begin() returns (first: nat)
      requires Valid() && N() > 0
      ensures first == NextMember(Members(), 0, N())
    {
      first := 0;
      if !a.Get(0) {
        first := Next(0);
      }
    }

    /** Walking from `begin` to `end` visits the members in order. */
    method Elements() returns (out: seq<int>)
      requires Valid() && N() > 0
      ensures Lists(out, a.order, InOrder(Members(), 0, N()))
    {
      out := [];
      var it := Begin();
      ghost var m, n, visited: seq<nat> := Members(), N(), [];
      InOrderSkips(m, 0, n);
      while it != |a.order|
        invariant it <= n && Walked(out, a.order, visited, m, it)
        decreases n - it
      {
        WalkOn(out, a.order, visited, m, it);
        out, visited := out + [a.order[it]], visited + [it];
        it := Next(it);
      }
    }

    /** `erase_if`: erases exactly the members that satisfy the predicate; how many those were. */
    method EraseIf(pred: int -> bool) returns (erased: nat)
      requires Valid() && N() > 0 && Distinct(a.order)
      modifies this, a.a
      ensures Valid()
      ensures Members() == Remaining(old(Members()), a.order, pred, N())
      ensures forall k :: k in Members() <==> k in old(Members()) && !pred(a.order[k])
      ensures erased == |old(Members()) - Members()|
    {
      var oldSize := s;
      ghost var before := Members();
      var i := Begin();
      while i != |a.order|
        invariant Valid() && i <= N() && (i < N() ==> i in Members())
        invariant Members() == Remaining(before, a.order, pred, i)
        decreases N() - i
      {
        var pos := i;
        i := Next(pos);
        RemainingStep(before, a.order, pred, pos, i);
        PositionAt(a.order, pos);
        if pred(a.order[pos]) {
          var n := Erase(a.order[pos]);
        }
      }
      RemovedCount(before, Members());
      erased := oldSize - s;
    }

    /** `operator<`. */
    method Less(rhs: EnumSet) returns (r: bool)
      requires Valid() && rhs.Valid() && a.order == rhs.a.order
      ensures r <==> SetLess(Members(), rhs.Members(), N())
      ensures |Members()| != |rhs.Members()| ==> (r <==> |Members()| < |rhs.Members()|)
      ensures |Members()| == |rhs.Members()| ==> (r <==> exists k: nat :: FirstMissing(Members(), rhs.Members(), k))
    {
      LessIff(Members(), rhs.Members(), N());
      if s < rhs.s { return true; }
      if rhs.s < s { return false; }
      var it := 0;
      while it != |a.order|
        invariant it <= N()
        invariant FirstDifference(Members(), rhs.Members(), it, N()) == FirstDifference(Members(), rhs.Members(), 0, N())
        decreases N() - it
      {
        var c := rhs.a.Get(it);
        if c != a.Get(it) { return c; }
        it := it + 1;
      }
      return false;
    }
  }

  /** `out` lists the enumerators at the positions `ps`. */
  ghost predicate Lists(out: seq<int>, order: seq<int>, ps: seq<nat>)
  {
    |out| == |ps| && forall i :: 0 <= i < |ps| ==> ps[i] < |order| && out[i] == order[ps[i]]
  }

  /** What is still listed once the walk stands on `it`. */
  ghost function InOrderAt(members: set<nat>, it: nat, n: nat): seq<nat>
  {
    if it < n then [it] + InOrder(members, it + 1, n) else []
  }

  /** A walk that stands on `it` has listed what comes before it. */
  ghost predicate Walked(out: seq<int>, order: seq<int>, visited: seq<nat>, members: set<nat>, it: nat)
  {
    Lists(out, order, visited) && InOrder(members, 0, |order|) == visited + InOrderAt(members, it, |order|)
  }

  lemma WalkOn(out: seq<int>, order: seq<int>, visited: seq<nat>, members: set<nat>, it: nat)
    requires it < |order| && Walked(out, order, visited, members, it)
    ensures Walked(out + [order[it]], order, visited + [it], members, NextMember(members, it + 1, |order|))
  {
    VisitedMore(members, visited, it, |order|);
    ListsMore(out, order, visited, it);
  }

  lemma VisitedMore(members: set<nat>, visited: seq<nat>, it: nat, n: nat)
    requires it < n
    ensures visited + InOrderAt(members, it, n) == visited + [it] + InOrderAt(members, NextMember(members, it + 1, n), n)
  {
    InOrderSkips(members, it + 1, n);
    ConsShifts(visited, it, InOrder(members, it + 1, n));
  }

  lemma ListsMore(out: seq<int>, order: seq<int>, visited: seq<nat>, it: nat)
    requires it < |order| && Lists(out, order, visited)
    ensures Lists(out + [order[it]], order, visited + [it])
  {
  }

  lemma ConsShifts(s: seq<nat>, x: nat, t: seq<nat>)
    ensures s + ([x] + t) == s + [x] + t
  {
  }

  /** The members left once those below `done` that satisfy the predicate are gone. */
  ghost function Remaining(members: set<nat>, order: seq<int>, pred: int -> bool, done: nat): set<nat>
    requires done <= |order|
  {
    set k | k in members && !(k < done && pred(order[k]))
  }

  lemma RemainingStep(members: set<nat>, order: seq<int>, pred: int -> bool, i: nat, next: nat)
    requires i < |order| && i in members
    requires next == NextMember(Remaining(members, order, pred, i), i + 1, |order|)
    ensures Remaining(members, order, pred, next) ==
            Remaining(members, order, pred, i) - (if pred(order[i]) then {i} else {})
    ensures next < |order| ==> next in Remaining(members, order, pred, next)
  {
    var now := Remaining(members, order, pred, i);
    forall k: nat | i < k < next ensures k !in members {
      assert k !in now;
    }
  }

  lemma RemovedCount(before: set<nat>, after: set<nat>)
    requires after <= before
    ensures |before - after| == |before| - |after|
  {
    assert before == after + (before - after);
  }

  lemma PositionAt(order: seq<int>, k: nat)
    requires Distinct(order) && k < |order|
    ensures Position(order, order[k]) == Some(k)
  {
  }

  /** A walk through a set of an index sorted by the comparator lists the elements in the comparator's
      order. */
  lemma ElementsSorted(out: seq<int>, order: seq<int>, members: set<nat>, cmp: Compare)
    requires Sorted(order, cmp) && Lists(out, order, InOrder(members, 0, |order|))
    ensures Sorted(out, cmp)
  {
    var ps := InOrder(members, 0, |order|);
    InOrderExact(members, 0, |order|);
    forall i, j | 0 <= i < j < |out| ensures !cmp(out[j], out[i]) {
      assert ps[i] < ps[j];
    }
  }
}
