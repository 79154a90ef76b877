/** A run of one thread that blocks itself for good: it ends the observation of an observer whose callback
    owns the ticket of another one. */
module ObserverExample {
  import opened Wrappers
  import opened Observers
  import opened ObserverProtocol
  import opened ObserverInvariant
  import opened ObserverReentry
  import opened ObserverNesting
  import opened ObserverDeadlock
  import opened ObserverProgress

  /** A world some moves lead to, with one call in progress. */
  ghost predicate Solo(moves: seq<Move>, w: World, c: Call) {
    && RunFrom(EMPTY, moves) == Some(w)
    && w.s.calls == map[0 := c] && w.caller == map[] && w.captured.Keys <= w.s.handles.Keys
  }

  /** A world some moves lead to, with no call in progress. */
  ghost predicate Calm(moves: seq<Move>, w: World) {
    RunFrom(EMPTY, moves) == Some(w) && w.s.calls == map[] && w.caller == map[]
  }

  lemma Further(moves: seq<Move>, w: World, m: Move)
    requires RunFrom(EMPTY, moves) == Some(w)
    ensures RunFrom(EMPTY, moves + [m]) == DoMove(w, m)
  {
    assert (moves + [m])[..|moves|] == moves;
  }

  /** The call takes its next step. */
  lemma Goes(moves: seq<Move>, w: World, c: Call, d: Call) returns (more: seq<Move>, v: World)
    requires Solo(moves, w, c) && NextPoint(w.s, c, None) == To(d)
    requires (HoldsList(d) && !HoldsList(c) ==> w.s.listLock == None) && (HoldsIndirect(d) && !HoldsIndirect(c) ==> w.s.indirectLock == None)
    requires !AtDrop(c) || w.captured == map[]
    ensures Solo(more, v, d) && v.captured == w.captured && Some(v.s) == DoAdvance(w.s, 0, None)
  {
    var m := Take(Advance(0, None), None);
    Further(moves, w, m);
    assert May(w, m.step, None);
    more, v := moves + [m], DoMove(w, m).value;
    assert v.captured == w.captured;
  }

  /** Nothing is held, and the observable is in use. */
  predicate Open(s: State) {
    s.listLock == None && s.indirectLock == None && s.alive && !s.closing && !s.destroyed
  }

  lemma BeginsAdd(moves: seq<Move>, w: World, callback: nat) returns (more: seq<Move>, v: World)
    requires Calm(moves, w) && Open(w.s) && w.captured == map[] && w.s.drawn < 2
    ensures Solo(more, v, AddReady(Observer(callback, w.s.drawn + 1, 1))) && v.captured == map[] && Open(v.s)
    ensures v.s.observers == w.s.observers && v.s.handles == w.s.handles && v.s.drawn == w.s.drawn + 1
  {
    var m := Take(BeginAdd(0, callback, 1, true), None);
    Further(moves, w, m);
    more, v := moves + [m], DoMove(w, m).value;
  }

  lemma Delivers(moves: seq<Move>, w: World, ticket: nat, h: HandleId) returns (more: seq<Move>, v: World)
    requires Solo(moves, w, Returning(ticket)) && Open(w.s) && w.captured == map[] && h !in w.s.handles
    ensures Calm(more, v) && v.captured == map[] && Open(v.s)
    ensures v.s.observers == w.s.observers && v.s.handles == w.s.handles[h := Handle(ticket, None)] && v.s.drawn == w.s.drawn
  {
    var m := Take(Deliver(0, h), None);
    Further(moves, w, m);
    assert !Waits(w, 0);
    more, v := moves + [m], DoMove(w, m).value;
  }

  /** What stays the same while a call that adds or removes goes on. */
  predicate SameRest(s: State, t: State) {
    && t.alive == s.alive && t.closing == s.closing && t.destroyed == s.destroyed
    && t.handles == s.handles && t.drawn == s.drawn
  }

  lemma Publishes(moves: seq<Move>, w: World, o: Observer) returns (more: seq<Move>, v: World)
    requires Solo(moves, w, AddReady(o)) && Open(w.s) && w.captured == map[]
    ensures Solo(more, v, AddPublished(o, v.s.observers)) && v.captured == map[] && SameRest(w.s, v.s)
    ensures v.s.observers == w.s.observers + [o] && v.s.indirectLock == None
  {
    var copy := w.s.observers + [o];
    more, v := Goes(moves, w, AddReady(o), AddLocked(o));
    more, v := Goes(more, v, AddLocked(o), AddBuilt(o, copy));
    more, v := Goes(more, v, AddBuilt(o, copy), AddPublished(o, copy));
  }

  lemma Returns(moves: seq<Move>, w: World, o: Observer) returns (more: seq<Move>, v: World)
    requires Solo(moves, w, AddPublished(o, w.s.observers)) && w.captured == map[] && o.ticket != 0
    requires w.s.indirectLock == None && w.s.alive && !w.s.closing && !w.s.destroyed
    ensures Solo(more, v, Returning(o.ticket)) && v.captured == map[] && SameRest(w.s, v.s)
    ensures v.s.observers == w.s.observers && Open(v.s)
  {
    more, v := Goes(moves, w, AddPublished(o, w.s.observers), AddUnlocked(o, w.s.observers));
    more, v := Goes(more, v, AddUnlocked(o, w.s.observers), Returning(o.ticket));
  }

  /** A whole call of `AddTicketedObserver`. */
  lemma Adds(moves: seq<Move>, w: World, callback: nat, h: HandleId) returns (more: seq<Move>, v: World)
    requires Calm(moves, w) && Open(w.s) && w.captured == map[] && w.s.drawn < 2 && h !in w.s.handles
    ensures var ticket := w.s.drawn + 1;
            && Calm(more, v) && v.captured == map[] && Open(v.s) && v.s.drawn == ticket
            && v.s.observers == w.s.observers + [Observer(callback, ticket, 1)]
            && v.s.handles == w.s.handles[h := Handle(ticket, None)]
  {
    var o := Observer(callback, w.s.drawn + 1, 1);
    more, v := BeginsAdd(moves, w, callback);
    more, v := Publishes(more, v, o);
    more, v := Returns(more, v, o);
    more, v := Delivers(more, v, o.ticket, h);
  }

  lemma Captures(moves: seq<Move>, w: World, h: HandleId, callback: nat) returns (more: seq<Move>, v: World)
    requires Calm(moves, w) && Idle(w.s, h) && w.captured == map[]
    ensures Calm(more, v) && v == w.(captured := map[h := callback])
  {
    Further(moves, w, Capture(h, callback));
    more, v := moves + [Capture(h, callback)], DoMove(w, Capture(h, callback)).value;
  }

  lemma BeginsStop(moves: seq<Move>, w: World, h: HandleId) returns (more: seq<Move>, v: World)
    requires Calm(moves, w) && Open(w.s) && Idle(w.s, h) && w.s.handles[h].ticket != 0 && h !in w.captured
    requires w.captured.Keys <= w.s.handles.Keys
    ensures Solo(more, v, StopReady(Ending(h, w.s.handles[h].ticket, Discard))) && v.captured == w.captured && Open(v.s)
    ensures v.s.observers == w.s.observers && v.s.handles.Keys == w.s.handles.Keys
    ensures forall g :: g in w.s.handles && g != h ==> v.s.handles[g] == w.s.handles[g]
  {
    var m := Take(BeginStop(0, h, Discard), None);
    Further(moves, w, m);
    assert May(w, m.step, None);
    more, v := moves + [m], DoMove(w, m).value;
    assert v.captured == w.captured;
  }

  lemma Locks(moves: seq<Move>, w: World, e: Ending) returns (more: seq<Move>, v: World)
    requires Solo(moves, w, StopReady(e)) && Open(w.s)
    ensures Solo(more, v, StopLocked(e)) && v.captured == w.captured && SameRest(w.s, v.s)
    ensures v.s.observers == w.s.observers && v.s.indirectLock == Some(0)
  {
    more, v := Guards(moves, w, e);
    more, v := Goes(more, v, StopWaiting(e), StopLocked(e));
  }

  lemma Guards(moves: seq<Move>, w: World, e: Ending) returns (more: seq<Move>, v: World)
    requires Solo(moves, w, StopReady(e)) && Open(w.s)
    ensures Solo(more, v, StopWaiting(e)) && v.captured == w.captured && SameRest(w.s, v.s)
    ensures v.s.observers == w.s.observers && v.s.indirectLock == Some(0) && v.s.listLock == None
  {
    more, v := Goes(moves, w, StopReady(e), StopGuarded(e));
    more, v := Goes(more, v, StopGuarded(e), StopWaiting(e));
  }

  lemma Shortens(moves: seq<Move>, w: World, e: Ending) returns (more: seq<Move>, v: World)
    requires Solo(moves, w, StopLocked(e)) && FindTicket(w.s.observers, e.ticket) < |w.s.observers|
    ensures Solo(more, v, StopPublished(e, w.s.observers)) && v.captured == w.captured && SameRest(w.s, v.s)
    ensures v.s.observers == Without(w.s.observers, e.ticket) && v.s.indirectLock == Some(0)
  {
    var before, shorter := w.s.observers, Without(w.s.observers, e.ticket);
    more, v := Goes(moves, w, StopLocked(e), StopBuilt(e, before, Some(shorter)));
    more, v := Goes(more, v, StopBuilt(e, before, Some(shorter)), StopPublished(e, before));
  }

  lemma Unlocks(moves: seq<Move>, w: World, e: Ending) returns (more: seq<Move>, v: World)
    requires Solo(moves, w, StopLocked(e)) && FindTicket(w.s.observers, e.ticket) < |w.s.observers|
    ensures Solo(more, v, StopUnlocked(e, w.s.observers)) && v.captured == w.captured && SameRest(w.s, v.s)
    ensures v.s.observers == Without(w.s.observers, e.ticket) && v.s.indirectLock == Some(0)
  {
    more, v := Shortens(moves, w, e);
    more, v := Goes(more, v, StopPublished(e, w.s.observers), StopUnlocked(e, w.s.observers));
  }

  /** Ending an observation up to the point where the removed observer is dropped. */
  lemma Removes(moves: seq<Move>, w: World, h: HandleId) returns (more: seq<Move>, v: World)
    requires Calm(moves, w) && Open(w.s) && Idle(w.s, h) && w.s.handles[h].ticket != 0 && h !in w.captured
    requires w.captured.Keys <= w.s.handles.Keys && FindTicket(w.s.observers, w.s.handles[h].ticket) < |w.s.observers|
    ensures var e := Ending(h, w.s.handles[h].ticket, Discard);
            && Solo(more, v, StopUnlocked(e, w.s.observers)) && v.captured == w.captured
            && v.s.observers == Without(w.s.observers, e.ticket) && v.s.indirectLock == Some(0)
            && forall g :: g in w.s.handles && g != h ==> g in v.s.handles && v.s.handles[g] == w.s.handles[g]
  {
    var e := Ending(h, w.s.handles[h].ticket, Discard);
    more, v := BeginsStop(moves, w, h);
    more, v := Locks(more, v, e);
    more, v := Unlocks(more, v, e);
  }

  lemma AddsSecond(moves: seq<Move>, w: World) returns (more: seq<Move>, v: World)
    requires Calm(moves, w) && Open(w.s) && w.captured == map[] && w.s.drawn == 1
    requires w.s.observers == [Observer(1, 1, 1)] && w.s.handles == map[1 := Handle(1, None)]
    ensures Calm(more, v) && Open(v.s) && v.captured == map[]
    ensures v.s.observers == [Observer(1, 1, 1), Observer(2, 2, 1)]
    ensures v.s.handles == map[1 := Handle(1, None), 2 := Handle(2, None)]
  {
    more, v := Adds(moves, w, 2, 2);
  }

  /** Two observations, the second ticket given to the first callback. */
  lemma Prepares() returns (moves: seq<Move>, w: World)
    ensures Calm(moves, w) && Open(w.s) && w.captured == map[2 := 1]
    ensures w.s.observers == [Observer(1, 1, 1), Observer(2, 2, 1)]
    ensures w.s.handles == map[1 := Handle(1, None), 2 := Handle(2, None)]
  {
    moves, w := Adds([], EMPTY, 1, 1);
    assert w.s.observers == [Observer(1, 1, 1)] && w.s.handles == map[1 := Handle(1, None)];
    moves, w := AddsSecond(moves, w);
    moves, w := Captures(moves, w, 2, 1);
  }

  lemma Dropped(w: World, e: Ending)
    requires 0 in w.s.calls && w.s.calls[0] == StopUnlocked(e, [Observer(1, 1, 1), Observer(2, 2, 1)])
    requires forall id :: id in w.s.calls && id != 0 ==> w.s.calls[id].StopReady?
    requires w.s.observers == [Observer(2, 2, 1)] && w.captured == map[2 := 1]
    requires 2 in w.s.handles && w.s.handles[2].ticket == 2
    ensures Traps(w, 0, 2)
  {
    assert Held(w.s.calls[0])[0].callback == 1;
    assert KeptBy(w.s, 0, 1);
  }

  lemma Destroys(moves: seq<Move>, w: World, e: Ending) returns (more: seq<Move>, v: World)
    requires Solo(moves, w, StopUnlocked(e, [Observer(1, 1, 1), Observer(2, 2, 1)])) && w.s.indirectLock == Some(0)
    requires w.s.observers == [Observer(2, 2, 1)] && w.captured == map[2 := 1]
    requires 2 in w.s.handles && w.s.handles[2] == Handle(2, None)
    ensures RunFrom(EMPTY, more) == Some(v) && v.s.indirectLock == Some(0)
    ensures v.s.calls == map[0 := w.s.calls[0], 1 := StopReady(Ending(2, 2, Discard))] && v.caller == map[1 := 0]
    ensures v.captured == w.captured && v.s.observers == w.s.observers
    ensures 2 in v.s.handles && v.s.handles[2] == Handle(2, Some(1))
  {
    var m := Take(BeginStop(1, 2, Discard), Some(0));
    Dropped(w, e);
    Further(moves, w, m);
    assert Destructor(w, Some(0), 1, 2, Discard);
    more, v := moves + [m], DoMove(w, m).value;
  }

  /** No call in progress can go on. */
  ghost predicate AllBlocked(w: World) {
    w.s.calls != map[] && forall id :: id in w.s.calls ==> !CanProceed(w, id)
  }

  /** The removal waits for the destructor it has called. */
  lemma WaitingBlocked(w: World, id: Id, n: Id, m: Move)
    requires n in w.caller && w.caller[n] == id && Serves(w, id, m)
    requires forall h :: h in w.captured ==> !Idle(w.s, h)
    ensures DoMove(w, m).None?
  {
    assert Waits(w, id);
  }

  /** The destructor waits for the lock the removal holds. */
  lemma DestructorBlocked(w: World, id: Id, m: Move)
    requires id in w.s.calls && w.s.calls[id].StopReady? && w.s.indirectLock.Some? && Serves(w, id, m)
    ensures DoMove(w, m).None?
  {
  }

  lemma BothBlocked(w: World, e: Ending)
    requires w.s.indirectLock == Some(0) && w.caller == map[1 := 0]
    requires w.s.calls == map[0 := StopUnlocked(e, [Observer(1, 1, 1), Observer(2, 2, 1)]), 1 := StopReady(Ending(2, 2, Discard))]
    requires w.captured == map[2 := 1] && 2 in w.s.handles && w.s.handles[2] == Handle(2, Some(1))
    ensures AllBlocked(w)
  {
    forall id | id in w.s.calls ensures !CanProceed(w, id) {
      forall m | Serves(w, id, m) ensures DoMove(w, m).None? {
        if id == 0 { WaitingBlocked(w, 0, 1, m); } else { DestructorBlocked(w, 1, m); }
      }
    }
    assert 0 in w.s.calls;
  }

  /** A run in which ending one observation blocks all calls in progress, and whatever else happens that
      call never returns. */
  lemma BlockingRun() returns (moves: seq<Move>)
    ensures RunFrom(EMPTY, moves).Some?
    ensures var w := RunFrom(EMPTY, moves).value;
            && AllBlocked(w) && 0 in w.s.calls
            && forall more :: RunFrom(w, more).Some? ==>
                 0 in RunFrom(w, more).value.s.calls && RunFrom(w, more).value.s.calls[0] == w.s.calls[0]
  {
    var w: World;
    moves, w := Prepares();
    assert FindTicket(w.s.observers, 1) == 0;
    assert Without(w.s.observers, 1) == [Observer(2, 2, 1)];
    var e := Ending(1, 1, Discard);
    moves, w := Removes(moves, w, 1);
    moves, w := Destroys(moves, w, e);
    BothBlocked(w, e);
    Dropped(w, e);
    WorldsKeep(moves);
    forall more | RunFrom(w, more).Some?
      ensures 0 in RunFrom(w, more).value.s.calls && RunFrom(w, more).value.s.calls[0] == w.s.calls[0]
    {
      BlockedForGood(w, 0, more);
    }
  }
}
