/** What holds after any sequence of steps of the observer protocol. */
module ObserverRuns {
  import opened Wrappers
  import opened Observers
  import opened ObserverProtocol
  import opened ObserverInvariant

  /** The state a sequence of steps leads to, if all of them can be taken. */
  function Run(steps: seq<Step>): Option<State> {
    if steps == [] then Some(START)
    else
      match Run(steps[..|steps| - 1])
      case None => None
      case Some(s) => Do(s, steps[|steps| - 1])
  }

  /** Whatever the interleaving, the invariant holds. */
  lemma {:induction false} RunsKeep(steps: seq<Step>)
    requires Run(steps).Some?
    ensures Inv(Run(steps).value)
  {
    if steps == [] {
      StartInv();
    } else {
      var before := steps[..|steps| - 1];
      RunsKeep(before);
      StepKept(Run(before).value, steps[|steps| - 1]);
    }
  }

  /** The published list is what the published updates make in the order of their publication, and
      a copy waiting to be published is the next update applied to it: no update is lost. */
  lemma NoLostUpdates(steps: seq<Step>)
    requires Run(steps).Some?
    ensures var s := Run(steps).value;
            && s.observers == Replay(s.log)
            && forall id :: id in s.calls ==>
                 match s.calls[id]
                 case AddBuilt(o, copy) => copy == Replay(s.log + [Added(o)])
                 case StopBuilt(e, _, Some(shorter)) => shorter == Replay(s.log + [Removed(e.ticket)])
                 case _ => true
  {
    RunsKeep(steps);
    var s := Run(steps).value;
    forall id | id in s.calls
      ensures match s.calls[id]
              case AddBuilt(o, copy) => copy == Replay(s.log + [Added(o)])
              case StopBuilt(e, _, Some(shorter)) => shorter == Replay(s.log + [Removed(e.ticket)])
              case _ => true
    {
      assert CopyOk(s.observers, s.calls[id]);
      assert forall u :: (s.log + [u])[..|s.log|] == s.log;
    }
  }

  /** A finished notification took the list as it was at some moment after the notification began,
      called exactly the observers of it that share a bit with the mask, in order and once each whatever
      they threw, and rethrows the first error. */
  lemma FiresAreExact(steps: seq<Step>, id: Id)
    requires Run(steps).Some? && id in Run(steps).value.calls && Run(steps).value.calls[id].Fired?
    ensures var s := Run(steps).value;
            var f := s.calls[id].f;
            && f.since <= f.at <= |s.log| && f.snapshot == Replay(s.log[..f.at])
            && f.called == Matching(f.snapshot, f.mask) && AllSharing(f.snapshot, f.mask, f.called)
            && |f.outcomes| == |f.called| && f.first == FirstError(f.outcomes)
  {
    RunsKeep(steps);
    var s := Run(steps).value;
    assert FireCallOk(s.log, s.calls[id]);
    var f := s.calls[id].f;
    assert f.snapshot[..|f.snapshot|] == f.snapshot;
    MatchingShares(f.snapshot, f.mask);
  }

  /** A place that holds a ticket for a published observer: a handle that has not removed it, or a
      call about to return it. */
  ghost predicate Holder(s: State, ticket: nat, p: Place) {
    match p
    case InCall(id) => id in s.calls && HasPublished(s.calls[id]) && DrawnBy(s.calls[id]) == ticket
    case AtHandle(h) => h in s.handles && s.handles[h].ticket == ticket && !RemovedFor(s, h)
  }

  /** While the observable is alive its ticketed observers and the holders of tickets correspond
      one to one. */
  lemma TicketsCorrespond(steps: seq<Step>)
    requires Run(steps).Some? && Run(steps).value.alive
    ensures var s := Run(steps).value;
            && DistinctTickets(s.observers)
            && (forall t: nat :: t != 0 ==> (HasTicket(s.observers, t) <==> exists p :: Holder(s, t, p)))
            && (forall t, p, q :: t != 0 && Holder(s, t, p) && Holder(s, t, q) ==> p == q)
  {
    RunsKeep(steps);
    var s := Run(steps).value;
    forall t: nat, p | t != 0 && Holder(s, t, p) ensures t in s.home && s.home[t] == p && Standing(s, t) {}
    forall t: nat | t != 0 ensures HasTicket(s.observers, t) <==> exists p :: Holder(s, t, p) {
      if Standing(s, t) { assert Holder(s, t, s.home[t]); }
    }
  }

  /** When no call is in progress the ticketed observers are exactly those of the engaged handles. */
  lemma QuiescentTickets(steps: seq<Step>)
    requires Run(steps).Some? && Run(steps).value.alive && Run(steps).value.calls == map[]
    ensures var s := Run(steps).value;
            forall t: nat :: t != 0 ==>
              (HasTicket(s.observers, t) <==> exists h :: h in s.handles && s.handles[h].ticket == t)
  {
    TicketsCorrespond(steps);
    var s := Run(steps).value;
    forall t: nat | t != 0
      ensures HasTicket(s.observers, t) <==> exists h :: h in s.handles && s.handles[h].ticket == t
    {
      if h :| h in s.handles && s.handles[h].ticket == t { assert Holder(s, t, AtHandle(h)); }
      if HasTicket(s.observers, t) {
        var p :| Holder(s, t, p);
        assert p.AtHandle?;
      }
    }
  }

  /** Ending an observation always finds the observer of its ticket. */
  lemma StopsFindTheirObserver(steps: seq<Step>, id: Id)
    requires Run(steps).Some? && id in Run(steps).value.calls && Run(steps).value.calls[id].StopBuilt?
    ensures Run(steps).value.calls[id].shorter.Some?
  {
    RunsKeep(steps);
    var s := Run(steps).value;
    var e := s.calls[id].e;
    assert LifeOk(s, s.calls[id]) && EndingOk(s.handles, id, e);
    assert s.home[e.ticket] == AtHandle(e.h) && Standing(s, e.ticket) && HasTicket(s.observers, e.ticket);
    assert CopyOk(s.observers, s.calls[id]);
  }

  /** No handle is inside `StopObservation` once the instance is reset, let alone once the
      observable is destroyed. */
  lemma NoStopOnDeadObservable(steps: seq<Step>, id: Id)
    requires Run(steps).Some? && (!Run(steps).value.alive || Run(steps).value.destroyed)
    requires id in Run(steps).value.calls
    ensures !InStopObservation(Run(steps).value.calls[id])
  {
    RunsKeep(steps);
    assert LifeOk(Run(steps).value, Run(steps).value.calls[id]);
  }

  /** The observers without a ticket, in order. */
  function Unticketed(list: seq<Observer>): seq<Observer> {
    if list == [] then []
    else
      var last := list[|list| - 1];
      Unticketed(list[..|list| - 1]) + (if last.ticket == 0 then [last] else [])
  }

  function AddedUnticketed(log: seq<Update>): seq<Observer> {
    if log == [] then []
    else
      var last := log[|log| - 1];
      AddedUnticketed(log[..|log| - 1]) + (if last.Added? && last.o.ticket == 0 then [last.o] else [])
  }

  lemma {:induction false} UnticketedJoin(a: seq<Observer>, b: seq<Observer>)
    ensures Unticketed(a + b) == Unticketed(a) + Unticketed(b)
  {
    if b == [] {
      assert a + b == a;
    } else {
      var n := |b| - 1;
      UnticketedJoin(a, b[..n]);
      assert (a + b)[..|a| + n] == a + b[..n];
    }
  }

  lemma UnticketedWithout(list: seq<Observer>, ticket: nat)
    requires ticket != 0
    ensures Unticketed(Without(list, ticket)) == Unticketed(list)
  {
    var i := FindTicket(list, ticket);
    if i < |list| {
      UnticketedJoin(list[..i], list[i + 1..]);
      UnticketedJoin([list[i]], list[i + 1..]);
      UnticketedJoin(list[..i], [list[i]] + list[i + 1..]);
      assert list == list[..i] + ([list[i]] + list[i + 1..]);
      assert Unticketed([list[i]]) == Unticketed([]) + [];
    }
  }

  lemma {:induction false} ReplayUnticketed(log: seq<Update>)
    requires forall i :: 0 <= i < |log| && log[i].Removed? ==> log[i].ticket != 0
    ensures Unticketed(Replay(log)) == AddedUnticketed(log)
  {
    if log != [] {
      var n := |log| - 1;
      ReplayUnticketed(log[..n]);
      match log[n]
      case Added(o) => UnticketedJoin(Replay(log[..n]), [o]); assert Unticketed([o]) == Unticketed([]) + (if o.ticket == 0 then [o] else []);
      case Removed(t) => UnticketedWithout(Replay(log[..n]), t);
    }
  }

  /** Observers added without a ticket are never removed and keep their order. */
  lemma UnticketedStay(steps: seq<Step>)
    requires Run(steps).Some?
    ensures Unticketed(Run(steps).value.observers) == AddedUnticketed(Run(steps).value.log)
  {
    RunsKeep(steps);
    ReplayUnticketed(Run(steps).value.log);
  }
}
