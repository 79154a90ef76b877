/** What every step of the observer protocol keeps: mutual exclusion, copies that are still good when
    they are published, the accounts of notifications, the life of the observable, and the place of
    every ticket. */
module ObserverInvariant {
  import opened Wrappers
  import opened Observers
  import opened ObserverProtocol

  /** Each lock is held by exactly the call whose progress says so. */
  ghost predicate LocksInv(s: State) {
    && (s.listLock.Some? ==> s.listLock.value in s.calls)
    && (s.indirectLock.Some? ==> s.indirectLock.value in s.calls)
    && forall id :: id in s.calls ==>
         (HoldsList(s.calls[id]) <==> s.listLock == Some(id)) &&
         (HoldsIndirect(s.calls[id]) <==> s.indirectLock == Some(id))
  }

  /** The list the updates in the log make, one after the other. */
  function Replay(log: seq<Update>): seq<Observer> {
    if log == [] then []
    else
      var before := Replay(log[..|log| - 1]);
      match log[|log| - 1]
      case Added(o) => before + [o]
      case Removed(t) => Without(before, t)
  }

  /** A copy that is about to be published was made from the list as it still is. */
  ghost predicate CopyOk(observers: seq<Observer>, c: Call) {
    match c
    case AddBuilt(o, copy) => copy == observers + [o]
    case StopBuilt(e, before, shorter) =>
      before == observers && shorter == if FindTicket(observers, e.ticket) < |observers| then Some(Without(observers, e.ticket)) else None
    case _ => true
  }

  ghost predicate ListInv(s: State) {
    && s.observers == Replay(s.log)
    && forall id :: id in s.calls ==> CopyOk(s.observers, s.calls[id])
  }

  /** A notification's snapshot is the list at some point of the log, and so far it has called
      exactly the matching observers of the snapshot, in order, remembering the first error. */
  ghost predicate FireOk(log: seq<Update>, f: Fire) {
    && f.since <= f.at <= |log| && f.snapshot == Replay(log[..f.at]) && f.i <= |f.snapshot|
    && f.called == Matching(f.snapshot[..f.i], f.mask)
    && |f.outcomes| == |f.called| && f.first == FirstError(f.outcomes)
  }

  ghost predicate FireCallOk(log: seq<Update>, c: Call) {
    match c
    case FireReady(_, since) => since <= |log|
    case FireLocked(_, since) => since <= |log|
    case FireTaken(f) => FireOk(log, f)
    case Firing(f) => FireOk(log, f)
    case Calling(f) => FireOk(log, f) && f.i < |f.snapshot| && Wants(f.snapshot[f.i], f.mask)
    case Fired(f) => FireOk(log, f) && f.i == |f.snapshot|
    case _ => true
  }

  ghost predicate FireInv(s: State) {
    forall id :: id in s.calls ==> FireCallOk(s.log, s.calls[id])
  }

  /** The life of the observable: its owner starts nothing once it is being destroyed, and no
      handle is inside `StopObservation` once the instance is reset. */
  ghost predicate LifeInv(s: State) {
    && (!s.alive ==> s.closing)
    && (s.destroyed ==> !s.alive)
    && (forall id :: id in s.calls ==> LifeOk(s, s.calls[id]))
    && OneDying(s.calls)
  }

  /** The observable is destroyed by one call. */
  ghost predicate OneDying(calls: map<Id, Call>) {
    forall id, other :: id in calls && other in calls && Dying(calls[id]) && Dying(calls[other]) ==> id == other
  }

  ghost predicate LifeOk(s: State, c: Call) {
    && (OwnerCall(c) ==> !s.closing)
    && (InStopObservation(c) ==> s.alive)
    && (Dying(c) ==> s.closing && !s.destroyed && (s.alive <==> !(c.DyingReset? || c.DyingFreed?)))
  }

  /** Handles in use by a call that ends an observation. */
  ghost predicate BusyInv(s: State) {
    && (forall id :: id in s.calls && Stopping(s.calls[id]) ==> EndingOk(s.handles, id, s.calls[id].e))
    && (forall h :: h in s.handles && s.handles[h].busy.Some? ==> BusyOk(s.calls, h, s.handles[h].busy.value))
  }

  ghost predicate EndingOk(handles: map<HandleId, Handle>, id: Id, e: Ending) {
    && e.ticket != 0
    && e.h in handles && handles[e.h] == Handle(e.ticket, Some(id))
    && (e.after.TakeFrom? ==> e.after.src in handles && handles[e.after.src].busy == Some(id))
  }

  ghost predicate BusyOk(calls: map<Id, Call>, h: HandleId, id: Id) {
    id in calls && Stopping(calls[id]) && (calls[id].e.h == h || calls[id].e.after == TakeFrom(h))
  }

  /** Every ticket that was drawn and is not ended yet is in exactly one place. */
  ghost predicate HomeInv(s: State) {
    && (forall t :: t in s.home ==> 1 <= t <= s.drawn && PlaceOk(s, t, s.home[t]))
    && (forall id :: id in s.calls && DrawnBy(s.calls[id]) != 0 ==>
          DrawnBy(s.calls[id]) in s.home && s.home[DrawnBy(s.calls[id])] == InCall(id))
    && (forall id :: id in s.calls && s.calls[id].Returning? ==> DrawnBy(s.calls[id]) != 0)
    && (forall h :: h in s.handles && s.handles[h].ticket != 0 ==>
          s.handles[h].ticket in s.home && s.home[s.handles[h].ticket] == AtHandle(h))
  }

  ghost predicate PlaceOk(s: State, t: nat, p: Place) {
    match p
    case InCall(id) => id in s.calls && DrawnBy(s.calls[id]) == t
    case AtHandle(h) => h in s.handles && s.handles[h].ticket == t
  }

  /** Whether a ticket in its place still stands for a published observer. */
  ghost predicate Stands(s: State, p: Place) {
    match p
    case InCall(id) => id in s.calls && HasPublished(s.calls[id])
    case AtHandle(h) => h in s.handles && !RemovedFor(s, h)
  }

  /** The observer of the handle has been removed, although the handle is not reset yet. */
  ghost predicate RemovedFor(s: State, h: HandleId) {
    h in s.handles && s.handles[h].busy.Some? &&
    var id := s.handles[h].busy.value;
    id in s.calls && HasRemoved(s.calls[id]) && s.calls[id].e.h == h
  }

  ghost predicate Standing(s: State, ticket: nat) {
    ticket in s.home && Stands(s, s.home[ticket])
  }

  /** The ticketed observers of a live observable are those of the standing tickets. */
  ghost predicate TicketInv(s: State) {
    s.alive ==>
      && DistinctTickets(s.observers)
      && forall t: nat :: t != 0 ==> (HasTicket(s.observers, t) <==> Standing(s, t))
  }

  /** Only ticketed observers are ever removed. */
  ghost predicate RemovalInv(s: State) {
    forall i :: 0 <= i < |s.log| && s.log[i].Removed? ==> s.log[i].ticket != 0
  }

  ghost predicate Inv(s: State) {
    CoreInv(s) && BusyInv(s) && HomeInv(s) && TicketInv(s)
  }

  lemma StartInv()
    ensures Inv(START)
  {
  }

  // ---------------------------------------------------------------- one step

  /** A call keeps its ticket, its handle and its business from point to point. */
  predicate SameRole(c: Call, d: Call) {
    && DrawnBy(d) == DrawnBy(c) && (d.Returning? ==> DrawnBy(d) != 0)
    && (Stopping(d) <==> Stopping(c)) && (Stopping(c) ==> Stopping(d) && d.e == c.e)
    && (Dying(d) <==> Dying(c))
  }

  lemma StopRoleKept(s: State, c: Call, outcome: Option<Error>)
    requires Stopping(c)
    ensures NextPoint(s, c, outcome).To? ==> SameRole(c, NextPoint(s, c, outcome).c)
    ensures !NextPoint(s, c, outcome).Over?
  {
  }

  lemma AddRoleKept(s: State, c: Call, outcome: Option<Error>)
    requires c.AddReady? || c.AddLocked? || c.AddBuilt? || c.AddPublished? || c.AddUnlocked? || c.Returning?
    ensures NextPoint(s, c, outcome).To? ==> SameRole(c, NextPoint(s, c, outcome).c)
    ensures NextPoint(s, c, outcome).Over? ==> DrawnBy(c) == 0
  {
  }

  lemma RoleKept(s: State, c: Call, outcome: Option<Error>)
    ensures NextPoint(s, c, outcome).To? ==> SameRole(c, NextPoint(s, c, outcome).c)
    ensures NextPoint(s, c, outcome).Over? ==> DrawnBy(c) == 0 && !Stopping(c)
  {
    if Stopping(c) {
      StopRoleKept(s, c, outcome);
    } else if OwnerCall(c) && !c.FireReady? && !c.FireLocked? && !c.FireTaken? && !c.Firing? && !c.Calling? && !c.Fired? {
      AddRoleKept(s, c, outcome);
    }
  }

  /** What advancing call `id` leaves alone. */
  ghost predicate Continued(s: State, t: State, id: Id) {
    && id in s.calls && t.handles == s.handles && t.home == s.home && t.drawn == s.drawn
    && t.calls.Keys <= s.calls.Keys
    && (forall other :: other in s.calls && other != id ==> other in t.calls && t.calls[other] == s.calls[other])
    && (id in t.calls ==> SameRole(s.calls[id], t.calls[id]))
    && (id !in t.calls ==> DrawnBy(s.calls[id]) == 0 && !Stopping(s.calls[id]))
  }

  lemma AdvanceContinues(s: State, id: Id, outcome: Option<Error>)
    requires DoAdvance(s, id, outcome).Some?
    ensures Continued(s, DoAdvance(s, id, outcome).value, id)
  {
    RoleKept(s, s.calls[id], outcome);
  }

  lemma LocksAdvance(s: State, id: Id, outcome: Option<Error>)
    requires LocksInv(s) && DoAdvance(s, id, outcome).Some?
    ensures LocksInv(DoAdvance(s, id, outcome).value)
  {
  }

  lemma ListAdvance(s: State, id: Id, outcome: Option<Error>)
    requires LocksInv(s) && ListInv(s) && DoAdvance(s, id, outcome).Some?
    ensures ListInv(DoAdvance(s, id, outcome).value)
  {
  }

  /** Later updates do not touch what a snapshot was. */
  lemma FireOkLater(log: seq<Update>, u: Update, f: Fire)
    requires FireOk(log, f)
    ensures FireOk(log + [u], f)
  {
    assert (log + [u])[..f.at] == log[..f.at];
  }

  lemma FireCallLater(s: State, c: Call, d: Call)
    requires FireCallOk(s.log, d)
    ensures FireCallOk(LogAfter(s, c), d)
  {
    var log := LogAfter(s, c);
    if log != s.log {
      var u := log[|s.log|];
      match d
      case FireTaken(f) => FireOkLater(s.log, u, f);
      case Firing(f) => FireOkLater(s.log, u, f);
      case Calling(f) => FireOkLater(s.log, u, f);
      case Fired(f) => FireOkLater(s.log, u, f);
      case _ =>
    }
  }

  lemma FirePasses(log: seq<Update>, f: Fire)
    requires FireOk(log, f) && f.i < |f.snapshot|
    ensures !Wants(f.snapshot[f.i], f.mask) ==> FireOk(log, f.(i := f.i + 1))
    ensures forall outcome :: Wants(f.snapshot[f.i], f.mask) ==>
              FireOk(log, f.(i := f.i + 1, called := f.called + [f.snapshot[f.i]], outcomes := f.outcomes + [outcome],
                             first := if f.first == None then outcome else f.first))
  {
    assert f.snapshot[..f.i + 1][..f.i] == f.snapshot[..f.i];
    forall outcome ensures FirstError(f.outcomes + [outcome]) == if f.first == None then outcome else f.first {
      FirstErrorSnoc(f.outcomes, outcome);
    }
  }

  /** A call that is passing over its snapshot, or inside a callback, keeps its account. */
  lemma FireContinues(s: State, c: Call, outcome: Option<Error>)
    requires FireCallOk(s.log, c) && (c.Firing? || c.Calling?) && NextPoint(s, c, outcome).To?
    ensures FireCallOk(s.log, NextPoint(s, c, outcome).c)
  {
    if c.f.i < |c.f.snapshot| { FirePasses(s.log, c.f); }
  }

  lemma FireNext(s: State, c: Call, outcome: Option<Error>)
    requires s.observers == Replay(s.log) && FireCallOk(s.log, c) && NextPoint(s, c, outcome).To?
    ensures FireCallOk(s.log, NextPoint(s, c, outcome).c)
  {
    if c.Firing? || c.Calling? {
      FireContinues(s, c, outcome);
    } else {
      assert s.log[..|s.log|] == s.log;
    }
  }

  lemma FireAdvance(s: State, id: Id, outcome: Option<Error>)
    requires ListInv(s) && FireInv(s) && DoAdvance(s, id, outcome).Some?
    ensures FireInv(DoAdvance(s, id, outcome).value)
  {
    var t, c := DoAdvance(s, id, outcome).value, s.calls[id];
    if NextPoint(s, c, outcome).To? { FireNext(s, c, outcome); }
    forall other | other in t.calls ensures FireCallOk(t.log, t.calls[other]) {
      FireCallLater(s, c, if other == id then NextPoint(s, c, outcome).c else s.calls[other]);
    }
  }

  lemma LifeOthers(s: State, id: Id, outcome: Option<Error>, other: Id)
    requires LocksInv(s) && LifeInv(s) && DoAdvance(s, id, outcome).Some? && other != id && other in s.calls
    ensures LifeOk(DoAdvance(s, id, outcome).value, s.calls[other])
  {
    assert LifeOk(s, s.calls[id]) && LifeOk(s, s.calls[other]);
  }

  lemma OneDyingAdvance(s: State, t: State, id: Id)
    requires OneDying(s.calls) && Continued(s, t, id)
    ensures OneDying(t.calls)
  {
  }

  lemma LifeActor(s: State, id: Id, outcome: Option<Error>)
    requires LifeInv(s) && DoAdvance(s, id, outcome).Some? && NextPoint(s, s.calls[id], outcome).To?
    ensures LifeOk(DoAdvance(s, id, outcome).value, NextPoint(s, s.calls[id], outcome).c)
  {
    assert LifeOk(s, s.calls[id]);
  }

  lemma LifeAdvance(s: State, id: Id, outcome: Option<Error>)
    requires LocksInv(s) && LifeInv(s) && DoAdvance(s, id, outcome).Some?
    ensures LifeInv(DoAdvance(s, id, outcome).value)
  {
    var t := DoAdvance(s, id, outcome).value;
    assert LifeOk(s, s.calls[id]);
    AdvanceContinues(s, id, outcome);
    OneDyingAdvance(s, t, id);
    forall other | other in t.calls ensures LifeOk(t, t.calls[other]) {
      if other == id { LifeActor(s, id, outcome); } else { LifeOthers(s, id, outcome, other); }
    }
  }

  lemma BusyAdvance(s: State, t: State, id: Id)
    requires BusyInv(s) && Continued(s, t, id)
    ensures BusyInv(t)
  {
    forall h | h in t.handles && t.handles[h].busy.Some? ensures BusyOk(t.calls, h, t.handles[h].busy.value) {
      assert BusyOk(s.calls, h, s.handles[h].busy.value);
    }
  }

  lemma PlaceAdvance(s: State, t: State, id: Id, ticket: nat)
    requires HomeInv(s) && Continued(s, t, id) && ticket in t.home
    ensures 1 <= ticket <= t.drawn && PlaceOk(t, ticket, t.home[ticket])
  {
    assert PlaceOk(s, ticket, s.home[ticket]);
  }

  lemma HomeAdvance(s: State, t: State, id: Id)
    requires HomeInv(s) && Continued(s, t, id)
    ensures HomeInv(t)
  {
    forall ticket | ticket in t.home ensures 1 <= ticket <= t.drawn && PlaceOk(t, ticket, t.home[ticket]) {
      PlaceAdvance(s, t, id, ticket);
    }
  }

  /** An observer is published, or removed, where the copy is. */
  lemma StandingNext(s: State, c: Call, outcome: Option<Error>)
    requires s.alive && NextPoint(s, c, outcome).To?
    ensures HasPublished(NextPoint(s, c, outcome).c) <==> HasPublished(c) || c.AddBuilt?
    ensures HasRemoved(NextPoint(s, c, outcome).c) <==> HasRemoved(c) || c.StopBuilt?
  {
  }

  lemma InCallStands(s: State, id: Id, outcome: Option<Error>, ticket: nat)
    requires HomeInv(s) && DoAdvance(s, id, outcome).Some? && s.alive && ticket in s.home && s.home[ticket].InCall?
    requires Continued(s, DoAdvance(s, id, outcome).value, id)
    ensures var c := s.calls[id];
            Standing(DoAdvance(s, id, outcome).value, ticket) <==> Standing(s, ticket) || (c.AddBuilt? && ticket == c.o.ticket)
  {
    assert 1 <= ticket && PlaceOk(s, ticket, s.home[ticket]);
    if NextPoint(s, s.calls[id], outcome).To? { StandingNext(s, s.calls[id], outcome); }
  }

  lemma AtHandleStands(s: State, id: Id, outcome: Option<Error>, ticket: nat)
    requires BusyInv(s) && HomeInv(s) && DoAdvance(s, id, outcome).Some? && s.alive && ticket in s.home && s.home[ticket].AtHandle?
    requires Continued(s, DoAdvance(s, id, outcome).value, id)
    ensures var c := s.calls[id];
            Standing(DoAdvance(s, id, outcome).value, ticket) <==> Standing(s, ticket) && !(c.StopBuilt? && ticket == c.e.ticket)
  {
    var h, c := s.home[ticket].h, s.calls[id];
    assert PlaceOk(s, ticket, s.home[ticket]);
    if NextPoint(s, c, outcome).To? { StandingNext(s, c, outcome); }
    if Stopping(c) { assert EndingOk(s.handles, id, c.e); }
    if s.handles[h].busy.Some? { assert BusyOk(s.calls, h, s.handles[h].busy.value); }
  }

  /** Publishing makes one ticket stand or fall; nothing else does. */
  lemma AdvanceStands(s: State, id: Id, outcome: Option<Error>, ticket: nat)
    requires BusyInv(s) && HomeInv(s) && DoAdvance(s, id, outcome).Some? && s.alive && ticket in s.home
    requires Continued(s, DoAdvance(s, id, outcome).value, id)
    ensures var c := s.calls[id];
            Standing(DoAdvance(s, id, outcome).value, ticket) <==>
              if c.AddBuilt? && ticket == c.o.ticket then true
              else if c.StopBuilt? && ticket == c.e.ticket then false
              else Standing(s, ticket)
  {
    var c := s.calls[id];
    if s.home[ticket].InCall? {
      InCallStands(s, id, outcome, ticket);
      if c.StopBuilt? { assert EndingOk(s.handles, id, c.e); }
    } else {
      AtHandleStands(s, id, outcome, ticket);
    }
  }

  lemma TicketAdded(s: State, id: Id)
    requires ListInv(s) && HomeInv(s) && TicketInv(s) && s.alive && id in s.calls && s.calls[id].AddBuilt?
    ensures var o, copy := s.calls[id].o, s.calls[id].copy;
            DistinctTickets(copy) && forall t: nat :: HasTicket(copy, t) <==> HasTicket(s.observers, t) || t == o.ticket
  {
    var o := s.calls[id].o;
    assert CopyOk(s.observers, s.calls[id]);
    assert o.ticket != 0 ==> s.home[o.ticket] == InCall(id) && !Standing(s, o.ticket);
    AppendTicket(s.observers, o);
  }

  lemma TicketRemoved(s: State, id: Id)
    requires ListInv(s) && BusyInv(s) && HomeInv(s) && TicketInv(s) && s.alive && id in s.calls && s.calls[id].StopBuilt?
    ensures var c := s.calls[id];
            c.shorter.Some? && DistinctTickets(c.shorter.value)
            && forall t: nat :: HasTicket(c.shorter.value, t) <==> HasTicket(s.observers, t) && t != c.e.ticket
  {
    var e := s.calls[id].e;
    assert CopyOk(s.observers, s.calls[id]) && EndingOk(s.handles, id, e);
    assert s.home[e.ticket] == AtHandle(e.h) && Standing(s, e.ticket) && HasTicket(s.observers, e.ticket);
    WithoutRemoves(s.observers, e.ticket);
  }

  lemma TicketAdvance(s: State, id: Id, outcome: Option<Error>)
    requires ListInv(s) && BusyInv(s) && HomeInv(s) && TicketInv(s)
    requires DoAdvance(s, id, outcome).Some?
    ensures TicketInv(DoAdvance(s, id, outcome).value)
  {
    var t, c := DoAdvance(s, id, outcome).value, s.calls[id];
    AdvanceContinues(s, id, outcome);
    if t.alive {
      if c.AddBuilt? { TicketAdded(s, id); }
      if c.StopBuilt? { TicketRemoved(s, id); }
      forall ticket: nat | ticket != 0 ensures HasTicket(t.observers, ticket) <==> Standing(t, ticket) {
        if ticket in s.home { AdvanceStands(s, id, outcome, ticket); }
        if c.AddBuilt? && ticket == c.o.ticket { assert ticket in s.home; }
      }
    }
  }

  lemma RemovalAdvance(s: State, id: Id, outcome: Option<Error>)
    requires BusyInv(s) && RemovalInv(s) && DoAdvance(s, id, outcome).Some?
    ensures RemovalInv(DoAdvance(s, id, outcome).value)
  {
  }

  lemma AdvanceKept(s: State, id: Id, outcome: Option<Error>)
    requires Inv(s) && DoAdvance(s, id, outcome).Some?
    ensures Inv(DoAdvance(s, id, outcome).value)
  {
    LocksAdvance(s, id, outcome);
    ListAdvance(s, id, outcome);
    FireAdvance(s, id, outcome);
    LifeAdvance(s, id, outcome);
    AdvanceContinues(s, id, outcome);
    BusyAdvance(s, DoAdvance(s, id, outcome).value, id);
    HomeAdvance(s, DoAdvance(s, id, outcome).value, id);
    TicketAdvance(s, id, outcome);
    RemovalAdvance(s, id, outcome);
  }

  ghost predicate NoOwnerCalls(s: State) {
    forall id :: id in s.calls ==> !OwnerCall(s.calls[id])
  }

  /** The parts of the invariant that do not speak of handles and tickets. */
  ghost predicate CoreInv(s: State) {
    LocksInv(s) && ListInv(s) && FireInv(s) && LifeInv(s) && RemovalInv(s)
  }

  lemma BeginAddBusy(s: State, id: Id, callback: nat, mask: nat, ticketed: bool)
    requires BusyInv(s) && DoBeginAdd(s, id, callback, mask, ticketed).Some?
    ensures BusyInv(DoBeginAdd(s, id, callback, mask, ticketed).value)
  {
  }

  lemma BeginAddHome(s: State, id: Id, callback: nat, mask: nat, ticketed: bool)
    requires BusyInv(s) && HomeInv(s) && DoBeginAdd(s, id, callback, mask, ticketed).Some?
    ensures HomeInv(DoBeginAdd(s, id, callback, mask, ticketed).value)
  {
  }

  lemma BeginAddStands(s: State, id: Id, callback: nat, mask: nat, ticketed: bool, ticket: nat)
    requires BusyInv(s) && HomeInv(s) && DoBeginAdd(s, id, callback, mask, ticketed).Some? && ticket != 0
    ensures Standing(DoBeginAdd(s, id, callback, mask, ticketed).value, ticket) <==> Standing(s, ticket)
  {
  }

  lemma BeginAddKept(s: State, id: Id, callback: nat, mask: nat, ticketed: bool)
    requires Inv(s) && DoBeginAdd(s, id, callback, mask, ticketed).Some?
    ensures Inv(DoBeginAdd(s, id, callback, mask, ticketed).value)
  {
    var t := DoBeginAdd(s, id, callback, mask, ticketed).value;
    assert CoreInv(t);
    BeginAddBusy(s, id, callback, mask, ticketed);
    BeginAddHome(s, id, callback, mask, ticketed);
    forall ticket: nat | ticket != 0 ensures Standing(t, ticket) <==> Standing(s, ticket) {
      BeginAddStands(s, id, callback, mask, ticketed, ticket);
    }
  }

  lemma BeginStopBusy(s: State, id: Id, h: HandleId, after: After)
    requires BusyInv(s) && DoBeginStop(s, id, h, after).Some?
    ensures BusyInv(DoBeginStop(s, id, h, after).value)
  {
  }

  /** Marking handles as in use does not move their tickets. */
  lemma MarksHome(s: State, t: State, id: Id, e: Ending)
    requires HomeInv(s) && id !in s.calls && t.calls == s.calls[id := StopReady(e)]
    requires t.home == s.home && t.drawn == s.drawn && t.handles.Keys == s.handles.Keys
    requires forall h :: h in s.handles ==> t.handles[h].ticket == s.handles[h].ticket
    ensures HomeInv(t)
  {
    forall ticket | ticket in t.home ensures 1 <= ticket <= t.drawn && PlaceOk(t, ticket, t.home[ticket]) {
      assert PlaceOk(s, ticket, s.home[ticket]);
    }
  }

  lemma BeginStopHome(s: State, id: Id, h: HandleId, after: After)
    requires HomeInv(s) && DoBeginStop(s, id, h, after).Some?
    ensures HomeInv(DoBeginStop(s, id, h, after).value)
  {
    var t := DoBeginStop(s, id, h, after).value;
    MarksHome(s, t, id, t.calls[id].e);
  }

  lemma BeginStopStands(s: State, id: Id, h: HandleId, after: After, ticket: nat)
    requires BusyInv(s) && HomeInv(s) && DoBeginStop(s, id, h, after).Some? && ticket != 0
    ensures Standing(DoBeginStop(s, id, h, after).value, ticket) <==> Standing(s, ticket)
  {
  }

  /** The list, the locks and the life of the observable do not change when a call begins or ends. */
  ghost predicate SameCore(s: State, t: State) {
    && t.observers == s.observers && t.log == s.log && t.listLock == s.listLock && t.indirectLock == s.indirectLock
    && t.alive == s.alive && t.closing == s.closing && t.destroyed == s.destroyed
  }

  lemma StopBegins(s: State, t: State, id: Id, e: Ending)
    requires CoreInv(s) && SameCore(s, t) && id !in s.calls && t.calls == s.calls[id := StopReady(e)]
    ensures LocksInv(t) && ListInv(t) && FireInv(t) && RemovalInv(t)
  {
  }

  lemma StopBeginsLife(s: State, t: State, id: Id, e: Ending)
    requires LifeInv(s) && SameCore(s, t) && id !in s.calls && t.calls == s.calls[id := StopReady(e)]
    ensures LifeInv(t)
  {
    forall other | other in t.calls ensures LifeOk(t, t.calls[other]) {
      if other != id { assert LifeOk(s, s.calls[other]); }
    }
  }

  lemma BeginStopCore(s: State, id: Id, h: HandleId, after: After)
    requires CoreInv(s) && DoBeginStop(s, id, h, after).Some?
    ensures CoreInv(DoBeginStop(s, id, h, after).value)
  {
    var t := DoBeginStop(s, id, h, after).value;
    StopBegins(s, t, id, t.calls[id].e);
    StopBeginsLife(s, t, id, t.calls[id].e);
  }

  lemma BeginStopKept(s: State, id: Id, h: HandleId, after: After)
    requires Inv(s) && DoBeginStop(s, id, h, after).Some?
    ensures Inv(DoBeginStop(s, id, h, after).value)
  {
    var t := DoBeginStop(s, id, h, after).value;
    BeginStopCore(s, id, h, after);
    BeginStopBusy(s, id, h, after);
    BeginStopHome(s, id, h, after);
    forall ticket: nat | ticket != 0 ensures Standing(t, ticket) <==> Standing(s, ticket) {
      BeginStopStands(s, id, h, after, ticket);
    }
  }

  lemma DeliverBusy(s: State, id: Id, h: HandleId)
    requires BusyInv(s) && DoDeliver(s, id, h).Some?
    ensures BusyInv(DoDeliver(s, id, h).value)
  {
  }

  lemma DeliverHome(s: State, id: Id, h: HandleId)
    requires BusyInv(s) && HomeInv(s) && DoDeliver(s, id, h).Some?
    ensures HomeInv(DoDeliver(s, id, h).value)
  {
  }

  lemma DeliverStands(s: State, id: Id, h: HandleId, ticket: nat)
    requires BusyInv(s) && HomeInv(s) && DoDeliver(s, id, h).Some? && ticket != 0
    ensures Standing(DoDeliver(s, id, h).value, ticket) <==> Standing(s, ticket)
  {
  }

  lemma DeliverKept(s: State, id: Id, h: HandleId)
    requires Inv(s) && DoDeliver(s, id, h).Some?
    ensures Inv(DoDeliver(s, id, h).value)
  {
    var t := DoDeliver(s, id, h).value;
    assert CoreInv(t);
    DeliverBusy(s, id, h);
    DeliverHome(s, id, h);
    forall ticket: nat | ticket != 0 ensures Standing(t, ticket) <==> Standing(s, ticket) {
      DeliverStands(s, id, h, ticket);
    }
  }

  lemma ResetBusy(s: State, id: Id, e: Ending)
    requires BusyInv(s) && id in s.calls && s.calls[id] == StopFinished(e)
    ensures BusyInv(Reset(s, id, e))
  {
  }

  lemma ResetPlaces(s: State, id: Id, e: Ending, ticket: nat)
    requires BusyInv(s) && HomeInv(s) && id in s.calls && s.calls[id] == StopFinished(e)
    requires ticket in Reset(s, id, e).home
    ensures 1 <= ticket <= s.drawn && PlaceOk(Reset(s, id, e), ticket, Reset(s, id, e).home[ticket])
  {
  }

  lemma ResetHome(s: State, id: Id, e: Ending)
    requires BusyInv(s) && HomeInv(s) && id in s.calls && s.calls[id] == StopFinished(e)
    ensures HomeInv(Reset(s, id, e))
  {
    var t := Reset(s, id, e);
    assert s.home[e.ticket] == AtHandle(e.h);
    forall ticket | ticket in t.home ensures 1 <= ticket <= t.drawn && PlaceOk(t, ticket, t.home[ticket]) {
      ResetPlaces(s, id, e, ticket);
    }
    forall g | g in t.handles && t.handles[g].ticket != 0
      ensures t.handles[g].ticket in t.home && t.home[t.handles[g].ticket] == AtHandle(g)
    {
      assert g in s.handles && t.handles[g].ticket == s.handles[g].ticket;
    }
  }

  lemma ResetStands(s: State, id: Id, e: Ending, ticket: nat)
    requires BusyInv(s) && HomeInv(s) && id in s.calls && s.calls[id] == StopFinished(e) && ticket != 0
    ensures Standing(Reset(s, id, e), ticket) <==> Standing(s, ticket)
  {
  }

  lemma ResetCore(s: State, id: Id, e: Ending)
    requires CoreInv(s) && id in s.calls && s.calls[id] == StopFinished(e)
    ensures CoreInv(Reset(s, id, e))
  {
  }

  lemma ResetKept(s: State, id: Id, e: Ending)
    requires Inv(s) && id in s.calls && s.calls[id] == StopFinished(e)
    ensures Inv(Reset(s, id, e))
    ensures Idle(Reset(s, id, e), e.h) && (e.after.TakeFrom? ==> Idle(Reset(s, id, e), e.after.src))
  {
    var t := Reset(s, id, e);
    ResetCore(s, id, e);
    ResetBusy(s, id, e);
    ResetHome(s, id, e);
    forall ticket: nat | ticket != 0 ensures Standing(t, ticket) <==> Standing(s, ticket) {
      ResetStands(s, id, e, ticket);
    }
  }

  lemma MoveBusy(s: State, h: HandleId, src: HandleId)
    requires BusyInv(s) && Idle(s, src) && (h in s.handles ==> Idle(s, h) && s.handles[h].ticket == 0)
    ensures BusyInv(Moved(s, h, src))
  {
  }

  lemma MovePlaces(s: State, h: HandleId, src: HandleId, ticket: nat)
    requires HomeInv(s) && Idle(s, src) && (h in s.handles ==> Idle(s, h) && s.handles[h].ticket == 0)
    requires ticket in Moved(s, h, src).home
    ensures 1 <= ticket <= s.drawn && PlaceOk(Moved(s, h, src), ticket, Moved(s, h, src).home[ticket])
  {
  }

  lemma MoveTickets(s: State, h: HandleId, src: HandleId, g: HandleId)
    requires HomeInv(s) && Idle(s, src) && g in Moved(s, h, src).handles && Moved(s, h, src).handles[g].ticket != 0
    ensures var t := Moved(s, h, src);
            t.handles[g].ticket in t.home && t.home[t.handles[g].ticket] == AtHandle(g)
  {
    if g != h {
      assert g in s.handles && s.home[s.handles[g].ticket] == AtHandle(g);
      if s.handles[src].ticket != 0 { assert s.home[s.handles[src].ticket] == AtHandle(src); }
    }
  }

  lemma MoveHome(s: State, h: HandleId, src: HandleId)
    requires HomeInv(s) && Idle(s, src) && (h in s.handles ==> Idle(s, h) && s.handles[h].ticket == 0)
    ensures HomeInv(Moved(s, h, src))
  {
    var t := Moved(s, h, src);
    forall ticket | ticket in t.home ensures 1 <= ticket <= t.drawn && PlaceOk(t, ticket, t.home[ticket]) {
      MovePlaces(s, h, src, ticket);
    }
    forall g | g in t.handles && t.handles[g].ticket != 0
      ensures t.handles[g].ticket in t.home && t.home[t.handles[g].ticket] == AtHandle(g)
    {
      MoveTickets(s, h, src, g);
    }
    forall id | id in t.calls && DrawnBy(t.calls[id]) != 0
      ensures DrawnBy(t.calls[id]) in t.home && t.home[DrawnBy(t.calls[id])] == InCall(id)
    {
      if s.handles[src].ticket != 0 { assert s.home[s.handles[src].ticket] == AtHandle(src); }
    }
  }

  /** The ticket that moves stands at both handles or at none. */
  lemma MovedStands(s: State, h: HandleId, src: HandleId)
    requires HomeInv(s) && Idle(s, src) && h != src && s.handles[src].ticket != 0
    ensures Standing(s, s.handles[src].ticket) && Standing(Moved(s, h, src), s.handles[src].ticket)
  {
    assert s.home[s.handles[src].ticket] == AtHandle(src);
  }

  /** The others stay where they are. */
  lemma OthersStand(s: State, h: HandleId, src: HandleId, ticket: nat)
    requires HomeInv(s) && Idle(s, src) && (h in s.handles ==> Idle(s, h) && s.handles[h].ticket == 0)
    requires ticket != 0 && ticket != s.handles[src].ticket
    ensures Standing(Moved(s, h, src), ticket) <==> Standing(s, ticket)
  {
    if ticket in s.home {
      assert PlaceOk(s, ticket, s.home[ticket]);
      assert s.home[ticket] != AtHandle(h) && s.home[ticket] != AtHandle(src);
    }
  }

  lemma MoveStands(s: State, h: HandleId, src: HandleId, ticket: nat)
    requires HomeInv(s) && Idle(s, src) && (h in s.handles ==> Idle(s, h) && s.handles[h].ticket == 0) && ticket != 0
    ensures Standing(Moved(s, h, src), ticket) <==> Standing(s, ticket)
  {
    if ticket == s.handles[src].ticket { MovedStands(s, h, src); } else { OthersStand(s, h, src, ticket); }
  }

  lemma MoveKept(s: State, h: HandleId, src: HandleId)
    requires Inv(s) && Idle(s, src) && (h in s.handles ==> Idle(s, h) && s.handles[h].ticket == 0)
    ensures Inv(Moved(s, h, src))
  {
    var t := Moved(s, h, src);
    assert CoreInv(t);
    MoveBusy(s, h, src);
    MoveHome(s, h, src);
    forall ticket: nat | ticket != 0 ensures Standing(t, ticket) <==> Standing(s, ticket) {
      MoveStands(s, h, src, ticket);
    }
  }

  lemma DropBusy(s: State, h: HandleId)
    requires BusyInv(s) && Idle(s, h) && s.handles[h].ticket == 0
    ensures BusyInv(s.(handles := s.handles - {h}))
  {
  }

  lemma DropHome(s: State, h: HandleId)
    requires BusyInv(s) && HomeInv(s) && Idle(s, h) && s.handles[h].ticket == 0
    ensures HomeInv(s.(handles := s.handles - {h}))
  {
  }

  lemma DropStands(s: State, h: HandleId, ticket: nat)
    requires BusyInv(s) && HomeInv(s) && Idle(s, h) && s.handles[h].ticket == 0 && ticket != 0
    ensures Standing(s.(handles := s.handles - {h}), ticket) <==> Standing(s, ticket)
  {
  }

  lemma DropKept(s: State, h: HandleId)
    requires Inv(s) && Idle(s, h) && s.handles[h].ticket == 0
    ensures Inv(s.(handles := s.handles - {h}))
  {
    var t := s.(handles := s.handles - {h});
    assert CoreInv(t);
    DropBusy(s, h);
    DropHome(s, h);
    forall ticket: nat | ticket != 0 ensures Standing(t, ticket) <==> Standing(s, ticket) {
      DropStands(s, h, ticket);
    }
  }

  lemma CreateBusy(s: State, h: HandleId)
    requires BusyInv(s) && h !in s.handles
    ensures BusyInv(s.(handles := s.handles[h := Handle(0, None)]))
  {
  }

  lemma CreateHome(s: State, h: HandleId)
    requires BusyInv(s) && HomeInv(s) && h !in s.handles
    ensures HomeInv(s.(handles := s.handles[h := Handle(0, None)]))
  {
  }

  lemma CreateStands(s: State, h: HandleId, ticket: nat)
    requires BusyInv(s) && HomeInv(s) && h !in s.handles && ticket != 0
    ensures Standing(s.(handles := s.handles[h := Handle(0, None)]), ticket) <==> Standing(s, ticket)
  {
  }

  lemma CreateKept(s: State, h: HandleId)
    requires Inv(s) && h !in s.handles
    ensures Inv(s.(handles := s.handles[h := Handle(0, None)]))
  {
    var t := s.(handles := s.handles[h := Handle(0, None)]);
    assert CoreInv(t);
    CreateBusy(s, h);
    CreateHome(s, h);
    forall ticket: nat | ticket != 0 ensures Standing(t, ticket) <==> Standing(s, ticket) {
      CreateStands(s, h, ticket);
    }
  }

  lemma BeginBusy(s: State, id: Id, c: Call, mask: nat)
    requires BusyInv(s) && id !in s.calls && !s.closing && (c == FireReady(mask, |s.log|) || (c.DyingReady? && NoOwnerCalls(s)))
    ensures BusyInv(s.(calls := s.calls[id := c], closing := c.DyingReady?))
  {
  }

  lemma BeginHome(s: State, id: Id, c: Call, mask: nat)
    requires BusyInv(s) && HomeInv(s) && id !in s.calls && !s.closing && (c == FireReady(mask, |s.log|) || (c.DyingReady? && NoOwnerCalls(s)))
    ensures HomeInv(s.(calls := s.calls[id := c], closing := c.DyingReady?))
  {
  }

  lemma BeginStands(s: State, id: Id, c: Call, mask: nat, ticket: nat)
    requires BusyInv(s) && HomeInv(s) && id !in s.calls && !s.closing && (c == FireReady(mask, |s.log|) || (c.DyingReady? && NoOwnerCalls(s))) && ticket != 0
    ensures Standing(s.(calls := s.calls[id := c], closing := c.DyingReady?), ticket) <==> Standing(s, ticket)
  {
  }

  lemma BeginKept(s: State, id: Id, c: Call, mask: nat)
    requires Inv(s) && id !in s.calls && !s.closing && (c == FireReady(mask, |s.log|) || (c.DyingReady? && NoOwnerCalls(s)))
    ensures Inv(s.(calls := s.calls[id := c], closing := c.DyingReady?))
  {
    var t := s.(calls := s.calls[id := c], closing := c.DyingReady?);
    assert CoreInv(t);
    BeginBusy(s, id, c, mask);
    BeginHome(s, id, c, mask);
    forall ticket: nat | ticket != 0 ensures Standing(t, ticket) <==> Standing(s, ticket) {
      BeginStands(s, id, c, mask, ticket);
    }
  }

  lemma FinishStopKept(s: State, id: Id)
    requires Inv(s) && DoFinishStop(s, id).Some?
    ensures Inv(DoFinishStop(s, id).value)
  {
    var e := s.calls[id].e;
    ResetKept(s, id, e);
    var r := Reset(s, id, e);
    match e.after
    case Discard => DropKept(r, e.h);
    case TakeFrom(src) => MoveKept(r, e.h, src);
  }

  lemma HandleKept(s: State, step: Step)
    requires Inv(s) && DoHandle(s, step).Some?
    ensures Inv(DoHandle(s, step).value)
  {
    match step
    case NewHandle(h) => CreateKept(s, h);
    case MoveHandle(src, dst) => MoveKept(s, dst, src);
    case DropEmpty(h) => DropKept(s, h);
    case AssignToEmpty(h, src) => MoveKept(s, h, src);
  }

  /** Every step keeps the invariant. */
  lemma StepKept(s: State, step: Step)
    requires Inv(s) && Do(s, step).Some?
    ensures Inv(Do(s, step).value)
  {
    match step
    case BeginAdd(id, callback, mask, ticketed) => BeginAddKept(s, id, callback, mask, ticketed);
    case BeginStop(id, h, after) => BeginStopKept(s, id, h, after);
    case Advance(id, outcome) => AdvanceKept(s, id, outcome);
    case Deliver(id, h) => DeliverKept(s, id, h);
    case FinishStop(id) => FinishStopKept(s, id);
    case BeginFire(id, mask) => BeginKept(s, id, FireReady(mask, |s.log|), mask);
    case BeginDestroy(id) => BeginKept(s, id, DyingReady, 0);
    case _ => HandleKept(s, step);
  }
}
