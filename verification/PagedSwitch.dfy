/** The hashed dispatch over a table of values in pages of 256 case labels, against
    searching the table from the front. */
module PagedSwitch {
  import opened Wrappers
  import opened Sequences
  import opened CaseLabels

  /** A hash function and the integral type it returns. */
  datatype Hash<!V> = Hash(of: V -> int, t: HashType) {
    ghost predicate Sound(values: seq<V>) {
      t.Wide() && forall i :: 0 <= i < |values| ==> t.Holds(of(values[i]))
    }
  }

  /** What the compiler and then a call make of a dispatch: rejected at compile time, the
      default result, or the index of the selected value. */
  datatype Outcome = Rejected | Default | Selected(index: nat)

  function Hashed<V>(values: seq<V>, of: V -> int): (h: seq<int>)
    ensures |h| == |values| && forall i :: 0 <= i < |h| ==> h[i] == of(values[i])
  {
    seq(|values|, i requires 0 <= i < |values| => of(values[i]))
  }

  /** The hash the dispatch uses: the secondary one when the primary one repeats. */
  ghost function ChosenHash<V>(values: seq<V>, primary: Hash<V>, secondary: Hash<V>): Hash<V>
  {
    if Distinct(Hashed(values, primary.of)) then primary else secondary
  }

  /** The predicate of the call on the first page; the recursive call for a later page does
      not pass it on, so that equality is used there. */
  predicate Matches<V(==)>(pred: (V, V) -> bool, first: bool, v: V, searched: V)
  {
    if first then pred(v, searched) else v == searched
  }

  /** Value `i` is selected from page `page` on: its hash and the predicate in force agree. */
  ghost predicate Hit<V>(values: seq<V>, hash: V -> int, pred: (V, V) -> bool, first: bool, page: nat, searched: V, i: nat)
  {
    && page <= i < |values|
    && hash(values[i]) == hash(searched)
    && Matches(pred, first && i < page + PAGE, values[i], searched)
  }

  ghost predicate CorrectFrom<V>(values: seq<V>, hash: V -> int, pred: (V, V) -> bool, first: bool, page: nat, searched: V, r: Outcome)
  {
    match r
    case Rejected => true
    case Selected(i) => Hit(values, hash, pred, first, page, searched, i)
    case Default => forall i :: !Hit(values, hash, pred, first, page, searched, i)
  }

  /** Every page from `page` on has distinct labels. */
  ghost predicate PagesFit(hashed: seq<int>, page: nat, t: HashType)
    requires forall h :: h in hashed ==> t.Holds(h)
    decreases |hashed| - page
  {
    page < |hashed| ==>
      && LiveHeld(hashed, page, t)
      && PageFits(Live(hashed, page), t)
      && PagesFit(hashed, page + PAGE, t)
  }

  /** The live hashes of a page are values of the type. */
  ghost predicate LiveHeld(hashed: seq<int>, page: nat, t: HashType)
    requires page < |hashed|
    ensures (forall h :: h in hashed ==> t.Holds(h)) ==> LiveHeld(hashed, page, t)
  {
    var live := Live(hashed, page);
    assert live[|live| - 1] == hashed[page + |live| - 1];
    t.Holds(live[|live| - 1])
  }

  /** The dispatch over a table compiles from page `page` on: the chosen hashes are distinct, and so
      are the labels of every page. */
  ghost predicate Compiles<V>(values: seq<V>, primary: Hash<V>, secondary: Hash<V>, page: nat)
    requires primary.Sound(values) && secondary.Sound(values)
  {
    var hash := ChosenHash(values, primary, secondary);
    Distinct(Hashed(values, hash.of)) && PagesFit(Hashed(values, hash.of), page, hash.t)
  }

  /** `constexpr_switch` from page `page` on. The switch of the next page is compiled with this one,
      whichever key is searched. */
  method ConstexprSwitch<V(==)>(values: seq<V>, primary: Hash<V>, secondary: Hash<V>, pred: (V, V) -> bool,
                                first: bool, page: nat, searched: V) returns (r: Outcome)
    requires page < |values| && primary.Sound(values) && secondary.Sound(values)
    ensures r == Rejected <==> !Compiles(values, primary, secondary, page)
    ensures CorrectFrom(values, ChosenHash(values, primary, secondary).of, pred, first, page, searched, r)
    decreases |values| - page
  {
    var unique := HasDuplicate(Hashed(values, primary.of));
    var hash := if unique then primary else secondary;
    var hashed := Hashed(values, hash.of);
    unique := HasDuplicate(hashed);
    if !unique { return Rejected; }
    var labels := CalculateCases(hashed, page, hash.t);
    var ok := HasDuplicate(labels);
    if !ok { return Rejected; }
    assert page + PAGE >= |values| ==> PagesFit(hashed, page + PAGE, hash.t);
    var later := Default;
    if |values| > PAGE + page {
      later := ConstexprSwitch(values, primary, secondary, pred, false, page + PAGE, searched);
      if later == Rejected { return Rejected; }
    }

    if k :| 0 <= k < PAGE && labels[k] == hash.of(searched) {
      if k + page < |values| {
        LiveLabel(values, hash, pred, first, page, searched, labels, k);
        if !Matches(pred, first, values[k + page], searched) { return Default; }
        return Selected(k + page);
      }
    }
    NoLiveLabel(values, hash, pred, first, page, searched, labels);
    return later;
  }

  /** `labels` serve the values from `page` on: all distinct, the live ones being their hashes. */
  ghost predicate Serves<V>(values: seq<V>, hash: Hash<V>, page: nat, labels: seq<int>)
    requires page < |values|
  {
    && hash.Sound(values)
    && Distinct(Hashed(values, hash.of))
    && |labels| == PAGE && Distinct(labels)
    && Live(Hashed(values, hash.of), page) <= labels
  }

  lemma LabelOf<V>(values: seq<V>, hash: Hash<V>, page: nat, labels: seq<int>, i: nat)
    requires page < |values| && Serves(values, hash, page, labels)
    requires page <= i < |values| && i < page + PAGE
    ensures labels[i - page] == hash.of(values[i])
  {
    var live := Live(Hashed(values, hash.of), page);
    assert live[i - page] == labels[i - page];
  }

  /** A live label that equals the searched hash belongs to the only value with that hash. */
  lemma LiveLabel<V>(values: seq<V>, hash: Hash<V>, pred: (V, V) -> bool, first: bool, page: nat, searched: V,
                     labels: seq<int>, k: nat)
    requires page < |values| && Serves(values, hash, page, labels)
    requires k < PAGE && k + page < |values| && labels[k] == hash.of(searched)
    ensures forall i :: Hit(values, hash.of, pred, first, page, searched, i) <==>
                        i == k + page && Matches(pred, first, values[k + page], searched)
  {
    LabelOf(values, hash, page, labels, k + page);
    var hashed := Hashed(values, hash.of);
    forall i: nat | Hit(values, hash.of, pred, first, page, searched, i) ensures i == k + page {
      assert hashed[i] == hashed[k + page];
    }
  }

  /** If no live label equals the searched hash, no value of this page can be selected. */
  lemma NoLiveLabel<V>(values: seq<V>, hash: Hash<V>, pred: (V, V) -> bool, first: bool, page: nat, searched: V,
                       labels: seq<int>)
    requires page < |values| && Serves(values, hash, page, labels)
    requires forall k :: 0 <= k < PAGE && labels[k] == hash.of(searched) ==> k + page >= |values|
    ensures forall i :: Hit(values, hash.of, pred, first, page, searched, i) <==>
                        Hit(values, hash.of, pred, false, page + PAGE, searched, i)
  {
    forall i: nat | Hit(values, hash.of, pred, first, page, searched, i) ensures i >= page + PAGE {
      if i < page + PAGE { LabelOf(values, hash, page, labels, i); }
    }
  }

  function LinearSearch<V>(values: seq<V>, pred: (V, V) -> bool, searched: V): (r: Outcome)
    ensures r.Default? ==> forall i :: 0 <= i < |values| ==> !pred(values[i], searched)
    ensures r.Selected? ==> r.index < |values| && pred(values[r.index], searched)
    ensures r.Selected? ==> forall i :: 0 <= i < r.index ==> !pred(values[i], searched)
    ensures r != Rejected
  {
    if values == [] then Default
    else if pred(values[0], searched) then Selected(0)
    else match LinearSearch(values[1..], pred, searched)
         case Selected(i) => Selected(i + 1)
         case _ => Default
  }

  /** What the dispatch over the whole table answers: `r` is fixed by the contract above. */
  ghost predicate Answers<V>(values: seq<V>, primary: Hash<V>, secondary: Hash<V>, pred: (V, V) -> bool, searched: V, r: Outcome)
    requires primary.Sound(values) && secondary.Sound(values)
  {
    && (r == Rejected <==> !Compiles(values, primary, secondary, 0))
    && CorrectFrom(values, ChosenHash(values, primary, secondary).of, pred, true, 0, searched, r)
  }

  lemma SameHashSameIndex<V>(values: seq<V>, hash: V -> int, i: nat, j: nat)
    requires Distinct(Hashed(values, hash)) && i < |values| && j < |values|
    requires hash(values[i]) == hash(values[j])
    ensures i == j
  {
    var hashed := Hashed(values, hash);
    assert hashed[i] == hashed[j];
  }

  /** A predicate that tells equal keys, as the predicates do that the callers pass. */
  ghost predicate IsEquality<V(!new)>(pred: (V, V) -> bool)
  {
    forall a, b :: pred(a, b) <==> a == b
  }

  /** With equality as the predicate the dispatch is the search from the front, whatever the number of
      pages, for every table that compiles; no other table is accepted. */
  lemma SwitchIsSearch<V(!new)>(values: seq<V>, primary: Hash<V>, secondary: Hash<V>, pred: (V, V) -> bool, searched: V, r: Outcome)
    requires primary.Sound(values) && secondary.Sound(values) && IsEquality(pred)
    requires Answers(values, primary, secondary, pred, searched, r)
    ensures r == if Compiles(values, primary, secondary, 0) then LinearSearch(values, pred, searched) else Rejected
  {
    if Compiles(values, primary, secondary, 0) {
      var hash := ChosenHash(values, primary, secondary).of;
      var linear := LinearSearch(values, pred, searched);
      if linear.Selected? {
        assert Hit(values, hash, pred, true, 0, searched, linear.index);
        SameHashSameIndex(values, hash, r.index, linear.index);
      }
    }
  }

  /** Increasing hashes always compile, on any number of pages. */
  lemma {:induction false} IncreasingPagesFit(hashed: seq<int>, page: nat, t: HashType)
    requires t.Wide() && Increasing(hashed) && forall h :: h in hashed ==> t.Holds(h)
    ensures PagesFit(hashed, page, t)
    decreases |hashed| - page
  {
    if page < |hashed| {
      CountedHolds(hashed, page, t);
      IncreasingFits(Live(hashed, page), t);
      IncreasingPagesFit(hashed, page + PAGE, t);
    }
  }

  lemma IncreasingCompiles<V>(values: seq<V>, primary: Hash<V>, secondary: Hash<V>)
    requires primary.Sound(values) && secondary.Sound(values) && Increasing(Hashed(values, primary.of))
    ensures Compiles(values, primary, secondary, 0)
  {
    IncreasingPagesFit(Hashed(values, primary.of), 0, primary.t);
  }

  // ---------------------------------------------------------------- acceptance from the hashes alone

  /** The number of hashes on the page that starts at `p`. */
  function OnPage(hashed: seq<int>, p: nat): nat
    requires p < |hashed|
  {
    if |hashed| - p <= PAGE then |hashed| - p else PAGE
  }

  predicate PageStart(hashed: seq<int>, page: nat, p: nat)
  {
    page <= p < |hashed| && (p - page) % PAGE == 0
  }

  /** The rest of the page can be counted up from its last hash. */
  predicate Roomy(hashed: seq<int>, p: nat, t: HashType)
    requires p < |hashed|
  {
    var n := OnPage(hashed, p);
    hashed[p + n - 1] + PAGE - n <= t.max
  }

  /** No hash of the page lies in the stretch that is counted up from its last one. */
  ghost predicate ClearAbove(hashed: seq<int>, p: nat)
    requires p < |hashed|
  {
    var n := OnPage(hashed, p);
    var last := hashed[p + n - 1];
    forall i :: p <= i < p + n ==> !(last < hashed[i] <= last + PAGE - n)
  }

  ghost predicate AllRoomy(hashed: seq<int>, page: nat, t: HashType)
  {
    forall p: nat :: PageStart(hashed, page, p) ==> Roomy(hashed, p, t)
  }

  ghost predicate AllClear(hashed: seq<int>, page: nat)
  {
    forall p: nat :: PageStart(hashed, page, p) ==> ClearAbove(hashed, p)
  }

  lemma PageFitsIffClear(hashed: seq<int>, page: nat, t: HashType)
    requires page < |hashed| && Distinct(hashed) && Roomy(hashed, page, t) && forall h :: h in hashed ==> t.Holds(h)
    ensures LiveHeld(hashed, page, t) && (PageFits(Live(hashed, page), t) <==> ClearAbove(hashed, page))
  {
    var live, n := Live(hashed, page), OnPage(hashed, page);
    CountedHolds(hashed, page, t);
    forall k | 0 <= k < n ensures live[k] == hashed[page + k] {}
    forall i, j | 0 <= i < j < n ensures live[i] != live[j] { assert hashed[page + i] != hashed[page + j]; }
    RoomyPageFitsIff(live, t);
    if ClearAbove(hashed, page) {
      forall h | h in live ensures !(live[n - 1] < h <= live[n - 1] + PAGE - n) {
        var k :| 0 <= k < n && live[k] == h;
        assert hashed[page + k] == h;
      }
    } else {
      var i :| page <= i < page + n && live[n - 1] < hashed[i] <= live[n - 1] + PAGE - n;
      assert live[i - page] in live;
    }
  }

  lemma PageStarts(hashed: seq<int>, page: nat, p: nat)
    ensures PageStart(hashed, page, p) <==> (p == page < |hashed|) || PageStart(hashed, page + PAGE, p)
  {
  }

  lemma {:induction false} PagesFitIffClear(hashed: seq<int>, page: nat, t: HashType)
    requires Distinct(hashed) && AllRoomy(hashed, page, t) && forall h :: h in hashed ==> t.Holds(h)
    ensures PagesFit(hashed, page, t) <==> AllClear(hashed, page)
    decreases |hashed| - page
  {
    if page < |hashed| {
      forall p: nat ensures PageStart(hashed, page, p) <==> (p == page) || PageStart(hashed, page + PAGE, p) {
        PageStarts(hashed, page, p);
      }
      PageFitsIffClear(hashed, page, t);
      PagesFitIffClear(hashed, page + PAGE, t);
    }
  }

  lemma {:induction false} PagesFitIffEach(hashed: seq<int>, page: nat, t: HashType)
    requires forall h :: h in hashed ==> t.Holds(h)
    ensures PagesFit(hashed, page, t) <==>
            forall p: nat :: PageStart(hashed, page, p) ==> LiveHeld(hashed, p, t) && PageFits(Live(hashed, p), t)
    decreases |hashed| - page
  {
    if page < |hashed| {
      forall p: nat ensures PageStart(hashed, page, p) <==> (p == page) || PageStart(hashed, page + PAGE, p) {
        PageStarts(hashed, page, p);
      }
      PagesFitIffEach(hashed, page + PAGE, t);
    }
  }

  /** A table is accepted exactly when the chosen hashes are distinct and the labels of each page are. */
  lemma CompilesIff<V>(values: seq<V>, primary: Hash<V>, secondary: Hash<V>, hash: Hash<V>)
    requires primary.Sound(values) && secondary.Sound(values) && IsChosen(values, primary, secondary, hash)
    ensures Compiles(values, primary, secondary, 0) <==>
            (var hashed := Hashed(values, hash.of);
             Distinct(hashed) && forall p: nat :: PageStart(hashed, 0, p) ==>
               LiveHeld(hashed, p, hash.t) && PageFits(Live(hashed, p), hash.t))
  {
    PagesFitIffEach(Hashed(values, hash.of), 0, hash.t);
  }

  /** Of two hashes the primary one is used if it tells the values apart, the secondary one otherwise. */
  ghost predicate IsChosen<V>(values: seq<V>, primary: Hash<V>, secondary: Hash<V>, hash: Hash<V>)
  {
    if Distinct(Hashed(values, primary.of)) then hash == primary else hash == secondary
  }

  /** Where the pages can be counted up, on any number of pages, a table is accepted exactly when the chosen
      hashes are distinct and no hash lies shortly above the last one of its page. */
  lemma AcceptedIff<V>(values: seq<V>, primary: Hash<V>, secondary: Hash<V>, hash: Hash<V>)
    requires primary.Sound(values) && secondary.Sound(values) && IsChosen(values, primary, secondary, hash)
    requires AllRoomy(Hashed(values, hash.of), 0, hash.t)
    ensures Compiles(values, primary, secondary, 0) <==>
            (Distinct(Hashed(values, hash.of)) && AllClear(Hashed(values, hash.of), 0))
  {
    if Distinct(Hashed(values, hash.of)) { PagesFitIffClear(Hashed(values, hash.of), 0, hash.t); }
  }

  /** The dispatch over such a table is the search from the front. */
  lemma AcceptedIsSearch<V(!new)>(values: seq<V>, primary: Hash<V>, secondary: Hash<V>, hash: Hash<V>,
                                  pred: (V, V) -> bool, searched: V, r: Outcome)
    requires primary.Sound(values) && secondary.Sound(values) && IsChosen(values, primary, secondary, hash)
    requires Distinct(Hashed(values, hash.of))
    requires AllRoomy(Hashed(values, hash.of), 0, hash.t) && AllClear(Hashed(values, hash.of), 0)
    requires IsEquality(pred) && Answers(values, primary, secondary, pred, searched, r)
    ensures r == LinearSearch(values, pred, searched)
  {
    AcceptedIff(values, primary, secondary, hash);
    SwitchIsSearch(values, primary, secondary, pred, searched, r);
  }

  /** Two values are accepted when the hash of the first lies below that of the second or far above it. */
  lemma TwoAccepted<V(!new)>(values: seq<V>, primary: Hash<V>, secondary: Hash<V>, pred: (V, V) -> bool, searched: V, r: Outcome)
    requires primary.Sound(values) && secondary.Sound(values) && |values| == 2 && IsEquality(pred)
    requires var first, second := primary.of(values[0]), primary.of(values[1]);
             (first < second || second + PAGE - 2 < first) && second + PAGE - 2 <= primary.t.max
    requires Answers(values, primary, secondary, pred, searched, r)
    ensures r == LinearSearch(values, pred, searched)
  {
    var hashed := Hashed(values, primary.of);
    forall p: nat | PageStart(hashed, 0, p) ensures p == 0 {}
    AcceptedIsSearch(values, primary, secondary, primary, pred, searched, r);
  }

  /** Two values do not compile when the hash of the first lies shortly above that of the second, where
      counting up puts a dead label. */
  lemma FirstAboveSecondRejected<V>(values: seq<V>, primary: Hash<V>, secondary: Hash<V>)
    requires primary.Sound(values) && secondary.Sound(values) && |values| == 2
    requires var first, second := primary.of(values[0]), primary.of(values[1]);
             second < first <= second + PAGE - 2 <= primary.t.max
    ensures Distinct(Hashed(values, primary.of)) && !Compiles(values, primary, secondary, 0)
  {
    var hashed := Hashed(values, primary.of);
    assert Live(hashed, 0) == hashed;
    HashAboveLastCollides(hashed, primary.t, hashed[0]);
  }

  // ---------------------------------------------------------------- predicates other than equality

  /** The predicate is reflexive and relates only keys of equal hash. */
  ghost predicate Compatible<V(!new)>(hash: V -> int, pred: (V, V) -> bool)
  {
    && (forall a :: pred(a, a))
    && (forall a, b :: pred(a, b) ==> hash(a) == hash(b))
  }

  /** Beyond the first page the predicate accepts nothing but the value itself. */
  ghost predicate ExactBeyondFirstPage<V(!new)>(values: seq<V>, pred: (V, V) -> bool)
  {
    forall i, searched :: PAGE <= i < |values| && pred(values[i], searched) ==> values[i] == searched
  }

  ghost predicate AgreesWithSearch<V(!new)>(values: seq<V>, primary: Hash<V>, secondary: Hash<V>, pred: (V, V) -> bool)
    requires primary.Sound(values) && secondary.Sound(values)
  {
    forall searched, r :: Answers(values, primary, secondary, pred, searched, r) ==> r == LinearSearch(values, pred, searched)
  }

  lemma AgreementAt<V(!new)>(values: seq<V>, primary: Hash<V>, secondary: Hash<V>, pred: (V, V) -> bool, searched: V, r: Outcome)
    requires primary.Sound(values) && secondary.Sound(values) && Compiles(values, primary, secondary, 0)
    requires Compatible(ChosenHash(values, primary, secondary).of, pred) && ExactBeyondFirstPage(values, pred)
    requires Answers(values, primary, secondary, pred, searched, r)
    ensures r == LinearSearch(values, pred, searched)
  {
    var hash := ChosenHash(values, primary, secondary).of;
    var linear := LinearSearch(values, pred, searched);
    if linear.Selected? {
      assert Hit(values, hash, pred, true, 0, searched, linear.index);
      SameHashSameIndex(values, hash, r.index, linear.index);
    }
  }

  /** The recursive call forgets the predicate: with a predicate other than equality the paged
      dispatch agrees with the search exactly when the forgotten predicate could not matter. */
  lemma AgreesIffExactBeyondFirstPage<V(!new)>(values: seq<V>, primary: Hash<V>, secondary: Hash<V>, pred: (V, V) -> bool)
    requires primary.Sound(values) && secondary.Sound(values) && Compiles(values, primary, secondary, 0)
    requires Compatible(ChosenHash(values, primary, secondary).of, pred)
    ensures AgreesWithSearch(values, primary, secondary, pred) <==> ExactBeyondFirstPage(values, pred)
  {
    var hash := ChosenHash(values, primary, secondary).of;
    if ExactBeyondFirstPage(values, pred) {
      forall searched, r | Answers(values, primary, secondary, pred, searched, r)
        ensures r == LinearSearch(values, pred, searched)
      {
        AgreementAt(values, primary, secondary, pred, searched, r);
      }
    } else {
      var i: nat, searched :| PAGE <= i < |values| && pred(values[i], searched) && values[i] != searched;
      forall j: nat ensures !Hit(values, hash, pred, true, 0, searched, j) {
        if Hit(values, hash, pred, true, 0, searched, j) { SameHashSameIndex(values, hash, i, j); }
      }
      assert Answers(values, primary, secondary, pred, searched, Default);
      assert LinearSearch(values, pred, searched) != Default;
    }
  }

  /** A table of 257 values and a predicate for which the forgotten predicate loses the last one. */
  lemma ForgottenPredicateExample(t: HashType)
    requires t.Wide() && 256 <= t.max
    ensures var values := seq(257, i => 2 * i);
            var hash := Hash((x: int) => x / 2, t);
            var pred := (a: int, b: int) => a / 2 == b / 2;
            && hash.Sound(values) && Answers(values, hash, hash, pred, 513, Default)
            && LinearSearch(values, pred, 513) != Default
  {
    var values := seq(257, i => 2 * i);
    var hash := Hash((x: int) => x / 2, t);
    assert values[256] / 2 == 513 / 2;
    assert Increasing(Hashed(values, hash.of));
    IncreasingCompiles(values, hash, hash);
  }
}
