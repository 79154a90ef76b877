/** The observer list of `ScopedObservableBase`, the tickets that keep observations alive, and
    what one call of each operation does when nothing runs beside it. */
module Observers {
  import opened Wrappers
  import opened BitMath
  import opened Sequences

  datatype Observer = Observer(callback: nat, ticket: nat, mask: nat)

  /** What a callback throws, if anything. */
  type Error = nat

  /** Tickets are drawn from a 64-bit counter that starts at one. */
  const LIMIT: nat := 0x1_0000_0000_0000_0000

  // ---------------------------------------------------------------- the list

  /** The index of the first observer with a ticket, or the length of the list. */
  function FindTicket(list: seq<Observer>, ticket: nat): (i: nat)
    ensures i <= |list| && (i < |list| ==> list[i].ticket == ticket)
    ensures forall k :: 0 <= k < i ==> list[k].ticket != ticket
  {
    if list == [] || list[0].ticket == ticket then 0 else 1 + FindTicket(list[1..], ticket)
  }

  /** The list without the first observer that has the ticket. */
  function Without(list: seq<Observer>, ticket: nat): seq<Observer>
  {
    var i := FindTicket(list, ticket);
    if i < |list| then list[..i] + list[i + 1..] else list
  }

  predicate Wants(o: Observer, mask: nat) { And(o.mask, mask) != 0 }

  /** The observers a notification with this mask is for, in order. */
  function Matching(list: seq<Observer>, mask: nat): seq<Observer>
  {
    if list == [] then []
    else
      var last := list[|list| - 1];
      Matching(list[..|list| - 1], mask) + (if Wants(last, mask) then [last] else [])
  }

  /** The observer and a notification have a bit of their masks in common. */
  ghost predicate Shares(o: Observer, mask: nat)
  {
    exists k: nat :: Bit(o.mask, k) && Bit(mask, k)
  }

  /** An observer is notified exactly of what has a bit in common with its mask. */
  lemma WantsIffShares(o: Observer, mask: nat)
    ensures Wants(o, mask) <==> Shares(o, mask)
  {
    BitwiseBits(AndGate, o.mask, mask);
    if Wants(o, mask) {
      var k := SomeBit(And(o.mask, mask));
      assert Bit(o.mask, k) && Bit(mask, k);
    } else if Shares(o, mask) {
      var k: nat :| Bit(o.mask, k) && Bit(mask, k);
      BitOfZero(k);
      assert false;
    }
  }

  /** `called` are the observers at the positions `ps`, which are all those that share a bit with the
      mask, in order. */
  ghost predicate SharingAt(list: seq<Observer>, mask: nat, called: seq<Observer>, ps: seq<nat>)
  {
    && |called| == |ps| && Increasing(ps)
    && (forall p: nat :: p in ps <==> p < |list| && Shares(list[p], mask))
    && (forall i :: 0 <= i < |ps| ==> ps[i] < |list| && called[i] == list[ps[i]])
  }

  ghost predicate AllSharing(list: seq<Observer>, mask: nat, called: seq<Observer>)
  {
    exists ps: seq<nat> :: SharingAt(list, mask, called, ps)
  }

  lemma SharingNext(list: seq<Observer>, mask: nat, called: seq<Observer>, ps: seq<nat>)
    requires list != [] && SharingAt(list[..|list| - 1], mask, called, ps)
    ensures var last := list[|list| - 1];
            if Shares(last, mask) then SharingAt(list, mask, called + [last], ps + [|list| - 1])
            else SharingAt(list, mask, called, ps)
  {
    var n := |list| - 1;
    forall i | 0 <= i < |ps| ensures ps[i] < n { assert ps[i] in ps; }
    forall p: nat | p < n ensures list[..n][p] == list[p] {}
  }

  /** The matching observers are all those that share a bit with the mask, in order and once each. */
  lemma {:induction false} MatchingShares(list: seq<Observer>, mask: nat)
    ensures AllSharing(list, mask, Matching(list, mask))
  {
    if list == [] {
      assert SharingAt(list, mask, [], []);
    } else {
      var front, last := list[..|list| - 1], list[|list| - 1];
      MatchingShares(front, mask);
      WantsIffShares(last, mask);
      var ps: seq<nat> :| SharingAt(front, mask, Matching(front, mask), ps);
      SharingNext(list, mask, Matching(front, mask), ps);
      if Wants(last, mask) {
        assert SharingAt(list, mask, Matching(list, mask), ps + [|list| - 1]);
      } else {
        assert Matching(list, mask) == Matching(front, mask);
        assert SharingAt(list, mask, Matching(list, mask), ps);
      }
    }
  }

  /** A notification without a mask is for nobody. */
  lemma NothingShares(list: seq<Observer>)
    ensures AllSharing(list, 0, [])
  {
    forall p: nat | p < |list| ensures !Shares(list[p], 0) {
      forall k: nat ensures !Bit(0, k) { BitOfZero(k); }
    }
    assert SharingAt(list, 0, [], []);
  }

  function FirstError(outcomes: seq<Option<Error>>): (e: Option<Error>)
    ensures e == None ==> forall k :: 0 <= k < |outcomes| ==> outcomes[k] == None
    ensures e.Some? ==> exists k :: 0 <= k < |outcomes| && outcomes[k] == e && forall j :: 0 <= j < k ==> outcomes[j] == None
  {
    if outcomes == [] then None else if outcomes[0].Some? then outcomes[0] else FirstError(outcomes[1..])
  }

  lemma {:induction false} FirstErrorSnoc(outcomes: seq<Option<Error>>, last: Option<Error>)
    ensures FirstError(outcomes + [last]) == if FirstError(outcomes).Some? then FirstError(outcomes) else last
  {
    if outcomes == [] {
      assert [last][1..] == [];
    } else {
      assert (outcomes + [last])[1..] == outcomes[1..] + [last];
      FirstErrorSnoc(outcomes[1..], last);
    }
  }

  /** Tickets other than zero are not repeated. */
  ghost predicate DistinctTickets(list: seq<Observer>)
  {
    forall i, j :: 0 <= i < j < |list| && list[i].ticket == list[j].ticket ==> list[i].ticket == 0
  }

  ghost predicate HasTicket(list: seq<Observer>, ticket: nat)
  {
    exists i :: 0 <= i < |list| && list[i].ticket == ticket
  }

  lemma WithoutRemoves(list: seq<Observer>, ticket: nat)
    requires DistinctTickets(list) && ticket != 0
    ensures DistinctTickets(Without(list, ticket))
    ensures forall t :: HasTicket(Without(list, ticket), t) <==> HasTicket(list, t) && t != ticket
  {
    var i, rest := FindTicket(list, ticket), Without(list, ticket);
    if i < |list| {
      forall t ensures HasTicket(rest, t) <==> HasTicket(list, t) && t != ticket {
        if k :| 0 <= k < |list| && list[k].ticket == t && t != ticket {
          assert rest[if k < i then k else k - 1].ticket == t;
        }
        if k :| 0 <= k < |rest| && rest[k].ticket == t {
          assert list[if k < i then k else k + 1].ticket == t;
        }
      }
    }
  }

  lemma AppendTicket(list: seq<Observer>, o: Observer)
    requires DistinctTickets(list) && (o.ticket != 0 ==> !HasTicket(list, o.ticket))
    ensures DistinctTickets(list + [o])
    ensures forall t :: HasTicket(list + [o], t) <==> HasTicket(list, t) || t == o.ticket
  {
    var more := list + [o];
    forall t ensures HasTicket(more, t) <==> HasTicket(list, t) || t == o.ticket {
      if k :| 0 <= k < |list| && list[k].ticket == t { assert more[k].ticket == t; }
      assert more[|list|].ticket == o.ticket;
    }
    forall i, j | 0 <= i < j < |more| && more[i].ticket == more[j].ticket ensures more[i].ticket == 0 {
      assert more[i] == list[i] && HasTicket(list, list[i].ticket);
    }
  }

  // ---------------------------------------------------------------- the objects

  /** The cell the tickets share with the observable; `instance` is reset when the latter dies. */
  class Indirect {
    var instance: ScopedObservable?

    constructor ()
      ensures instance == null
    {
      instance := null;
    }
  }

  class ScopedObservable {
    var observers: seq<Observer>
    // the value of the ticket counter
    var counter: nat
    const indirect: Indirect

    constructor ()
      ensures observers == [] && counter == 1 && fresh(indirect) && indirect.instance == this
    {
      observers, counter := [], 1;
      var cell := new Indirect();
      indirect := cell;
      new;
      cell.instance := this;
    }

    /** The destructor. */
    method Destroy()
      modifies indirect
      ensures indirect.instance == null
    {
      indirect.instance := null;
    }

    /** Returns an empty ticket for an empty callback or mask. */
    method AddTicketedObserver(callback: Option<nat>, mask: nat) returns (t: ObservationTicket)
      requires counter < LIMIT
      modifies this
      ensures fresh(t)
      ensures callback == None || mask == 0 ==>
                !t.Engaged() && observers == old(observers) && counter == old(counter)
      ensures callback.Some? && mask != 0 ==>
                && t.indirect == indirect && t.ticket == old(counter)
                && observers == old(observers) + [Observer(callback.value, old(counter), mask)]
                && counter == (old(counter) + 1) % LIMIT
    {
      if callback == None || mask == 0 {
        t := new ObservationTicket(null, 0);
        return;
      }
      var ticket := counter;
      counter := (counter + 1) % LIMIT;
      observers := observers + [Observer(callback.value, ticket, mask)];
      t := new ObservationTicket(indirect, ticket);
    }

    method AddUnticketedObserver(callback: Option<nat>, mask: nat)
      modifies this
      ensures counter == old(counter)
      ensures observers == if callback == None || mask == 0 then old(observers)
                           else old(observers) + [Observer(callback.value, 0, mask)]
    {
      if callback == None || mask == 0 { return; }
      observers := observers + [Observer(callback.value, 0, mask)];
    }

    method StopObservation(ticket: nat)
      modifies this
      ensures counter == old(counter) && observers == Without(old(observers), ticket)
    {
      var i := 0;
      while i != |observers|
        invariant 0 <= i <= |observers| && observers == old(observers) && counter == old(counter)
        invariant forall k :: 0 <= k < i ==> observers[k].ticket != ticket
        decreases |observers| - i
      {
        if observers[i].ticket == ticket {
          FoundTicket(observers, ticket, i);
          observers := observers[..i] + observers[i + 1..];
          return;
        }
        i := i + 1;
      }
    }

    /** `throws` tells what each callback throws. The callbacks called, in order, and the error that
        is rethrown. */
    method FireObservers(mask: nat, throws: nat -> Option<Error>)
      returns (called: seq<Observer>, rethrown: Option<Error>)
      ensures called == if mask == 0 then [] else Matching(observers, mask)
      ensures AllSharing(observers, mask, called)
      ensures rethrown == FirstError(Outcomes(called, throws))
    {
      called, rethrown := [], None;
      MatchingShares(observers, mask);
      if mask == 0 {
        NothingShares(observers);
        return;
      }
      for i := 0 to |observers|
        invariant called == Matching(observers[..i], mask)
        invariant rethrown == FirstError(Outcomes(called, throws))
      {
        var o := observers[i];
        assert observers[..i + 1][..i] == observers[..i];
        if !Wants(o, mask) { continue; }
        OutcomesSnoc(called, o, throws);
        FirstErrorSnoc(Outcomes(called, throws), throws(o.callback));
        called := called + [o];
        if throws(o.callback).Some? && rethrown == None { rethrown := throws(o.callback); }
      }
      assert observers[..|observers|] == observers;
    }
  }

  lemma FoundTicket(list: seq<Observer>, ticket: nat, i: nat)
    requires i < |list| && list[i].ticket == ticket && forall k :: 0 <= k < i ==> list[k].ticket != ticket
    ensures FindTicket(list, ticket) == i
  {
  }

  function Outcomes(called: seq<Observer>, throws: nat -> Option<Error>): seq<Option<Error>>
  {
    seq(|called|, i requires 0 <= i < |called| => throws(called[i].callback))
  }

  lemma OutcomesSnoc(called: seq<Observer>, o: Observer, throws: nat -> Option<Error>)
    ensures Outcomes(called + [o], throws) == Outcomes(called, throws) + [throws(o.callback)]
  {
  }

  /** The observers called before a throwing callback ends the notification, with that one. */
  function UntilThrow(list: seq<Observer>, throws: nat -> Option<Error>): seq<Observer>
  {
    if list == [] then []
    else if throws(list[0].callback).Some? then [list[0]]
    else [list[0]] + UntilThrow(list[1..], throws)
  }

  lemma {:induction false} UntilThrowPassed(done: seq<Observer>, rest: seq<Observer>, throws: nat -> Option<Error>)
    requires forall i :: 0 <= i < |done| ==> throws(done[i].callback) == None
    ensures UntilThrow(done + rest, throws) == done + UntilThrow(rest, throws)
  {
    if done == [] {
      assert [] + rest == rest;
    } else {
      assert (done + rest)[1..] == done[1..] + rest;
      UntilThrowPassed(done[1..], rest, throws);
    }
  }

  lemma {:induction false} MatchingJoin(a: seq<Observer>, b: seq<Observer>, mask: nat)
    ensures Matching(a + b, mask) == Matching(a, mask) + Matching(b, mask)
  {
    if b == [] {
      assert a + b == a;
    } else {
      var n := |b| - 1;
      MatchingJoin(a, b[..n], mask);
      assert (a + b)[..|a| + n] == a + b[..n];
    }
  }

  /** `called` are the first of `all`, up to the first that throws or, if none does, to the end. */
  ghost predicate StopsAtThrow(all: seq<Observer>, called: seq<Observer>, throws: nat -> Option<Error>)
  {
    && called <= all
    && (forall k :: 0 <= k < |called| - 1 ==> throws(called[k].callback) == None)
    && (called == all || (called != [] && throws(called[|called| - 1].callback).Some?))
  }

  lemma {:induction false} UntilThrowStops(list: seq<Observer>, throws: nat -> Option<Error>)
    ensures StopsAtThrow(list, UntilThrow(list, throws), throws)
  {
    if list != [] && throws(list[0].callback) == None {
      UntilThrowStops(list[1..], throws);
      var rest, called := UntilThrow(list[1..], throws), UntilThrow(list, throws);
      assert called == [list[0]] + rest && list == [list[0]] + list[1..];
      forall k | 0 <= k < |called| - 1 ensures throws(called[k].callback) == None {
        if k > 0 { assert called[k] == rest[k - 1]; }
      }
    }
  }

  lemma UnscopedStops(observers: seq<Observer>, mask: nat, throws: nat -> Option<Error>)
    ensures exists all :: AllSharing(observers, mask, all) && StopsAtThrow(all, UntilThrow(Matching(observers, mask), throws), throws)
  {
    MatchingShares(observers, mask);
    UntilThrowStops(Matching(observers, mask), throws);
  }

  /** Where the next observer called throws, the notification ends with it. */
  lemma ThrowEnds(observers: seq<Observer>, i: nat, mask: nat, called: seq<Observer>, throws: nat -> Option<Error>)
    requires i < |observers| && called == Matching(observers[..i], mask) && Wants(observers[i], mask)
    requires forall k :: 0 <= k < |called| ==> throws(called[k].callback) == None
    requires throws(observers[i].callback).Some?
    ensures UntilThrow(Matching(observers, mask), throws) == called + [observers[i]]
  {
    var o, rest := observers[i], Matching(observers[i + 1..], mask);
    assert observers == observers[..i + 1] + observers[i + 1..];
    assert observers[..i + 1][..i] == observers[..i];
    MatchingJoin(observers[..i + 1], observers[i + 1..], mask);
    assert Matching(observers, mask) == called + ([o] + rest);
    UntilThrowPassed(called, [o] + rest, throws);
  }

  /** `ObservableBase::FireObservers`, which lets the exception of a callback through: the matching
      observers are called up to the first one that throws. */
  method FireUnscoped(observers: seq<Observer>, mask: nat, throws: nat -> Option<Error>)
    returns (called: seq<Observer>, thrown: Option<Error>)
    ensures called == if mask == 0 then [] else UntilThrow(Matching(observers, mask), throws)
    ensures exists all :: AllSharing(observers, mask, all) && StopsAtThrow(all, called, throws)
    ensures thrown == FirstError(Outcomes(called, throws))
  {
    called, thrown := [], None;
    if mask == 0 {
      NothingShares(observers);
      assert StopsAtThrow([], called, throws);
      return;
    }
    for i := 0 to |observers|
      invariant called == Matching(observers[..i], mask) && thrown == None
      invariant forall k :: 0 <= k < |called| ==> throws(called[k].callback) == None
    {
      var o := observers[i];
      assert observers[..i + 1][..i] == observers[..i];
      if Wants(o, mask) {
        if throws(o.callback).Some? {
          ThrowEnds(observers, i, mask, called, throws);
          NoErrors(called, throws);
          OutcomesSnoc(called, o, throws);
          FirstErrorSnoc(Outcomes(called, throws), throws(o.callback));
          UnscopedStops(observers, mask, throws);
          return called + [o], throws(o.callback);
        }
        called := called + [o];
      }
    }
    assert observers[..|observers|] == observers && called + [] == called;
    UntilThrowPassed(called, [], throws);
    NoErrors(called, throws);
    UnscopedStops(observers, mask, throws);
  }

  lemma {:induction false} NoErrors(called: seq<Observer>, throws: nat -> Option<Error>)
    requires forall k :: 0 <= k < |called| ==> throws(called[k].callback) == None
    ensures FirstError(Outcomes(called, throws)) == None
  {
    if called != [] {
      NoErrors(called[1..], throws);
      assert Outcomes(called, throws)[1..] == Outcomes(called[1..], throws);
    }
  }

  class ObservationTicket {
    var indirect: Indirect?
    var ticket: nat

    constructor (indirect: Indirect?, ticket: nat)
      ensures this.indirect == indirect && this.ticket == ticket
    {
      this.indirect, this.ticket := indirect, ticket;
    }

    /** The move constructor. */
    constructor Move(r: ObservationTicket)
      modifies r
      ensures indirect == old(r.indirect) && ticket == old(r.ticket)
      ensures r.indirect == null && r.ticket == 0
    {
      indirect, ticket := r.indirect, r.ticket;
      new;
      r.indirect, r.ticket := null, 0;
    }

    predicate Engaged()
      reads this
    {
      indirect != null && ticket != 0
    }

    /** The observable whose list this ticket may still change. */
    function Target(): (o: ScopedObservable?)
      reads this, indirect
    {
      if indirect != null && ticket != 0 then indirect.instance else null
    }

    /** What ending the observation does: nothing for an empty ticket or a dead observable. */
    method Stop()
      modifies Target()
      ensures Target() == old(Target())
      ensures Target() != null ==> Target().observers == Without(old(Target().observers), ticket)
    {
      if Engaged() {
        if indirect.instance != null { indirect.instance.StopObservation(ticket); }
      }
    }

    /** Move assignment. Assigning a ticket to itself ends its observation and leaves it empty. */
    method Assign(r: ObservationTicket)
      modifies this, r, Target()
      ensures r.indirect == null && r.ticket == 0
      ensures r != this ==> indirect == old(r.indirect) && ticket == old(r.ticket)
      ensures old(Target()) != null ==>
                old(Target()).observers == Without(old(Target().observers), old(ticket))
    {
      Stop();
      indirect := r.indirect;
      ticket := r.ticket;
      r.indirect := null;
      r.ticket := 0;
    }
  }
}
